/**
 * The window's state and its non-drawing logic (src/ui.rs): the "Select all"
 * box, the search filter, the per-fix check boxes whose changes are collected
 * during the scan and applied afterwards, and the start and cancel buttons that
 * drive the background run.
 *
 * The run's thread and the shared cells (`Arc<Mutex<..>>`, `AtomicBool`) are
 * sequentialised: a run is `StartProcessing` followed by `RunInBackground`, and
 * a cancel press during the run is the iteration at which the worker first reads
 * the flag as set.
 */
module Gui {
  import opened Wrappers
  import opened Text
  import opened FixConfig
  import opened TidyRunner

  /** A fix is listed when its lower-cased name contains the lower-cased search text. */
  predicate Matches(name: string, filter: string) {
    Contains(Lower(name), Lower(filter))
  }

  /** An empty search text lists every fix. */
  lemma EmptyFilterMatchesAll(name: string)
    ensures Matches(name, "")
  {
    ContainsEmpty(Lower(name));
  }

  /** The filter does not see letter case (for ASCII letters). */
  lemma FilterIgnoresCase(name: string, filter: string)
    ensures Matches(Lower(name), filter) == Matches(name, filter)
    ensures Matches(name, Lower(filter)) == Matches(name, filter)
  {
    LowerIdempotent(name);
    LowerIdempotent(filter);
  }

  /**
   * The changes the scan records: `(name, new flag)` for each listed fix whose
   * box the user clicked (`clicked` holds positions in the list), in list order.
   * Clicking a box flips its flag.
   */
  function ToggleRequests(fixes: seq<Fix>, filter: string, clicked: set<nat>): seq<(string, bool)> {
    if fixes == [] then []
    else
      var n := |fixes| - 1;
      ToggleRequests(fixes[..n], filter, clicked)
        + if n in clicked && Matches(fixes[n].name, filter) then [(fixes[n].name, !fixes[n].enabled)] else []
  }

  /** The scan over the fix list; it only reads the list. */
  method CollectChanges(fixes: seq<Fix>, filter: string, clicked: set<nat>) returns (changes: seq<(string, bool)>)
    ensures changes == ToggleRequests(fixes, filter, clicked)
  {
    changes := [];
    for i := 0 to |fixes|
      invariant changes == ToggleRequests(fixes[..i], filter, clicked)
    {
      assert fixes[..i + 1][..i] == fixes[..i];
      if Matches(fixes[i].name, filter) {
        var enabled := fixes[i].enabled;
        if i in clicked {
          enabled := !enabled;
          changes := changes + [(fixes[i].name, enabled)];
        }
      }
    }
    assert fixes[..|fixes|] == fixes;
  }

  /** Every recorded change belongs to a listed fix that was clicked, and flips its flag. */
  lemma {:induction false} RequestComesFromVisibleClick(fixes: seq<Fix>, filter: string, clicked: set<nat>, k: nat)
    requires k < |ToggleRequests(fixes, filter, clicked)|
    ensures exists i :: (0 <= i < |fixes| && i in clicked && Matches(fixes[i].name, filter)
      && ToggleRequests(fixes, filter, clicked)[k] == (fixes[i].name, !fixes[i].enabled))
  {
    var n := |fixes| - 1;
    var before := ToggleRequests(fixes[..n], filter, clicked);
    var reqs := ToggleRequests(fixes, filter, clicked);
    if k < |before| {
      RequestComesFromVisibleClick(fixes[..n], filter, clicked, k);
      assert reqs[k] == before[k];
      var i :| 0 <= i < n && i in clicked && Matches(fixes[..n][i].name, filter)
        && before[k] == (fixes[..n][i].name, !fixes[..n][i].enabled);
      assert fixes[..n][i] == fixes[i];
      assert 0 <= i < |fixes| && i in clicked && Matches(fixes[i].name, filter)
        && reqs[k] == (fixes[i].name, !fixes[i].enabled);
    } else {
      assert n in clicked && Matches(fixes[n].name, filter);
      assert reqs[k] == (fixes[n].name, !fixes[n].enabled);
    }
  }

  /** Every recorded change names a fix of the scanned list, so each of them saves. */
  lemma RequestsNameListedFixes(fixes: seq<Fix>, filter: string, clicked: set<nat>)
    ensures PresentCount(fixes, ToggleRequests(fixes, filter, clicked)) == |ToggleRequests(fixes, filter, clicked)|
  {
    var reqs := ToggleRequests(fixes, filter, clicked);
    forall k | 0 <= k < |reqs| ensures HasName(fixes, reqs[k].0) {
      RequestComesFromVisibleClick(fixes, filter, clicked, k);
    }
  }

  /** The fix list after applying `changes` in order through `set_fix_enabled`. */
  function AppliedChanges(fixes: seq<Fix>, changes: seq<(string, bool)>): seq<Fix> {
    if changes == [] then fixes
    else
      var n := |changes| - 1;
      WithFixEnabled(AppliedChanges(fixes, changes[..n]), changes[n].0, changes[n].1)
  }

  /** How many of `changes` name a fix of `fixes`: the calls of `set_fix_enabled` that save. */
  function PresentCount(fixes: seq<Fix>, changes: seq<(string, bool)>): (r: nat)
    ensures r <= |changes|
    ensures r == |changes| <==> forall k :: 0 <= k < |changes| ==> HasName(fixes, changes[k].0)
  {
    if changes == [] then 0
    else
      var n := |changes| - 1;
      assert forall k :: 0 <= k < n ==> changes[..n][k] == changes[k];
      PresentCount(fixes, changes[..n]) + if HasName(fixes, changes[n].0) then 1 else 0
  }

  /** Applying changes keeps the number, order and names of the fixes. */
  lemma {:induction false} AppliedChangesKeepNames(fixes: seq<Fix>, changes: seq<(string, bool)>)
    ensures SameNames(AppliedChanges(fixes, changes), fixes)
  {
    if changes != [] {
      AppliedChangesKeepNames(fixes, changes[..|changes| - 1]);
    }
  }

  /** A fix whose name no change mentions keeps its flag. */
  lemma {:induction false} UntouchedFixesKeepFlag(fixes: seq<Fix>, changes: seq<(string, bool)>, i: nat)
    requires i < |fixes|
    requires forall k :: 0 <= k < |changes| ==> changes[k].0 != fixes[i].name
    ensures |AppliedChanges(fixes, changes)| == |fixes| && AppliedChanges(fixes, changes)[i] == fixes[i]
  {
    if changes != [] {
      var n := |changes| - 1;
      UntouchedFixesKeepFlag(fixes, changes[..n], i);
    }
  }

  /** The list with the flags of the listed, clicked fixes before position `m` flipped. */
  function Toggled(fixes: seq<Fix>, filter: string, clicked: set<nat>, m: nat): seq<Fix> {
    seq(|fixes|, i requires 0 <= i < |fixes| =>
      if i < m && i in clicked && Matches(fixes[i].name, filter)
      then fixes[i].(enabled := !fixes[i].enabled) else fixes[i])
  }

  /** Extending the scanned prefix by one fix adds at most that fix's change. */
  lemma ToggleRequestsSnoc(fixes: seq<Fix>, filter: string, clicked: set<nat>, n: nat)
    requires n < |fixes|
    ensures ToggleRequests(fixes[..n + 1], filter, clicked)
         == ToggleRequests(fixes[..n], filter, clicked)
            + if n in clicked && Matches(fixes[n].name, filter) then [(fixes[n].name, !fixes[n].enabled)] else []
  {
    assert fixes[..n + 1][..n] == fixes[..n];
    assert fixes[..n + 1][n] == fixes[n];
  }

  /** In a list with unique names, setting the flag by name touches only that name's position. */
  lemma WithFixEnabledAt(x: seq<Fix>, n: nat, v: bool)
    requires UniqueNames(x) && n < |x|
    ensures WithFixEnabled(x, x[n].name, v) == x[n := x[n].(enabled := v)]
  {
    var r := WithFixEnabled(x, x[n].name, v);
    assert !HasName(x[..n], x[n].name);
    forall i | 0 <= i < |x| ensures r[i] == x[n := x[n].(enabled := v)][i] {
      if i < n {
        assert x[i].name != x[n].name;
      } else if i > n {
        assert x[i].name != x[n].name;
      }
    }
  }

  /** One more scanned position flips that position's flag when it was listed and clicked. */
  lemma ToggledStep(fixes: seq<Fix>, filter: string, clicked: set<nat>, n: nat)
    requires UniqueNames(fixes) && n < |fixes|
    ensures Toggled(fixes, filter, clicked, n + 1)
         == if n in clicked && Matches(fixes[n].name, filter)
            then WithFixEnabled(Toggled(fixes, filter, clicked, n), fixes[n].name, !fixes[n].enabled)
            else Toggled(fixes, filter, clicked, n)
  {
    var x := Toggled(fixes, filter, clicked, n);
    var goal := Toggled(fixes, filter, clicked, n + 1);
    if n in clicked && Matches(fixes[n].name, filter) {
      assert UniqueNames(x) by {
        assert forall i :: 0 <= i < |x| ==> x[i].name == fixes[i].name;
      }
      WithFixEnabledAt(x, n, !fixes[n].enabled);
      forall i | 0 <= i < |fixes| ensures x[n := x[n].(enabled := !fixes[n].enabled)][i] == goal[i] {
      }
      assert x[n := x[n].(enabled := !fixes[n].enabled)] == goal;
    } else {
      forall i | 0 <= i < |fixes| ensures x[i] == goal[i] {
      }
      assert x == goal;
    }
  }

  lemma AppliedChangesSnoc(fixes: seq<Fix>, changes: seq<(string, bool)>, c: (string, bool))
    ensures AppliedChanges(fixes, changes + [c]) == WithFixEnabled(AppliedChanges(fixes, changes), c.0, c.1)
  {
    assert (changes + [c])[..|changes|] == changes;
  }

  lemma {:induction false} ToggledPrefix(fixes: seq<Fix>, filter: string, clicked: set<nat>, m: nat)
    requires UniqueNames(fixes) && m <= |fixes|
    ensures AppliedChanges(fixes, ToggleRequests(fixes[..m], filter, clicked)) == Toggled(fixes, filter, clicked, m)
  {
    if m == 0 {
      assert fixes[..0] == [];
      assert Toggled(fixes, filter, clicked, 0) == fixes;
    } else {
      var n := m - 1;
      var before := ToggleRequests(fixes[..n], filter, clicked);
      var reqs := ToggleRequests(fixes[..m], filter, clicked);
      var picked := n in clicked && Matches(fixes[n].name, filter);
      ToggledPrefix(fixes, filter, clicked, n);
      ToggleRequestsSnoc(fixes, filter, clicked, n);
      ToggledStep(fixes, filter, clicked, n);
      if picked {
        var c := (fixes[n].name, !fixes[n].enabled);
        assert reqs == before + [c];
        AppliedChangesSnoc(fixes, before, c);
        assert AppliedChanges(fixes, reqs) == WithFixEnabled(Toggled(fixes, filter, clicked, n), c.0, c.1);
      } else {
        assert reqs == before;
      }
    }
  }

  /**
   * With unique fix names, the deferred application flips exactly the listed
   * fixes the user clicked; names, order and every other flag stay as they were.
   */
  lemma ToggleEffect(fixes: seq<Fix>, filter: string, clicked: set<nat>)
    requires UniqueNames(fixes)
    ensures var r := AppliedChanges(fixes, ToggleRequests(fixes, filter, clicked));
      && SameNames(r, fixes)
      && forall i :: 0 <= i < |fixes| ==>
           r[i].enabled == if i in clicked && Matches(fixes[i].name, filter) then !fixes[i].enabled else fixes[i].enabled
  {
    ToggledPrefix(fixes, filter, clicked, |fixes|);
    assert fixes[..|fixes|] == fixes;
  }

  /** The worker's first iteration that reads the cancel flag as set. */
  function FirstCancelSeen(flagAtStart: bool, pressedAt: Option<nat>): Option<nat> {
    if flagAtStart then Some(0) else pressedAt
  }

  class Application {
    const config: Config
    var selectAllChecked: bool
    var filterText: string
    var isRunning: bool
    var cancelFlag: bool
    /** The progress bar's value; the source stores an `f32` here. */
    var progress: real

    /** `Application::new(config)`. */
    constructor (config: Config)
      ensures this.config == config
      ensures !selectAllChecked && filterText == "" && !isRunning && !cancelFlag && progress == 0.0
    {
      this.config := config;
      selectAllChecked, filterText := false, "";
      isRunning, cancelFlag, progress := false, false, 0.0;
    }

    /**
     * `start_processing`: marks the run as started and hands the worker a copy of
     * the configuration, which later edits of `config` cannot reach. The cancel
     * flag is left as it is.
     */
    method StartProcessing() returns (job: ConfigValue)
      modifies this
      ensures job == config.Value()
      ensures isRunning && progress == 0.0
      ensures cancelFlag == old(cancelFlag)
      ensures selectAllChecked == old(selectAllChecked) && filterText == old(filterText)
    {
      job := config.Value();
      isRunning := true;
      progress := 0.0;
    }

    /** `start_processing` as the run's lifecycle intends it: it also clears the cancel flag. */
    method StartProcessingFresh() returns (job: ConfigValue)
      modifies this
      ensures job == config.Value()
      ensures isRunning && progress == 0.0 && !cancelFlag
      ensures selectAllChecked == old(selectAllChecked) && filterText == old(filterText)
    {
      job := config.Value();
      isRunning := true;
      progress := 0.0;
      cancelFlag := false;
    }

    /** `cancel_processing`: only ever stores `true`, so pressing twice equals pressing once. */
    method CancelProcessing()
      modifies this
      ensures cancelFlag
      ensures isRunning == old(isRunning) && progress == old(progress)
      ensures selectAllChecked == old(selectAllChecked) && filterText == old(filterText)
    {
      cancelFlag := true;
    }

    /**
     * The spawned thread: `process_fixes` on the copy, then `is_running = false`.
     * `pressedAt` is the iteration before which a cancel press lands while the
     * run is under way (`None`: no press); a flag that is already set is seen at
     * the very first iteration. The worker never touches `progress`.
     */
    method RunInBackground(job: ConfigValue, pressedAt: Option<nat>, failedWrites: set<nat>)
      returns (trace: seq<Event>)
      modifies this
      ensures trace == Trace(job, FirstCancelSeen(old(cancelFlag), pressedAt), failedWrites)
      ensures !isRunning && progress == old(progress)
      ensures cancelFlag == (old(cancelFlag) || pressedAt.Some?)
      ensures selectAllChecked == old(selectAllChecked) && filterText == old(filterText)
    {
      var seen := if cancelFlag then Some(0) else pressedAt;
      if pressedAt.Some? {
        CancelProcessing();
      }
      trace := ProcessFixes(job, seen, failedWrites);
      isRunning := false;
    }

    /** The "Select all" box changed: every fix takes its new value, then the configuration is saved. */
    method SelectAllClicked()
      modifies this, config
      ensures selectAllChecked == !old(selectAllChecked)
      ensures |config.fixes| == |old(config.fixes)|
      ensures forall i :: 0 <= i < |config.fixes| ==> config.fixes[i] == Fix(old(config.fixes[i].name), selectAllChecked)
      ensures config.Value() == old(config.Value()).(fixes := config.fixes)
      ensures config.saves == old(config.saves) + 1
      ensures filterText == old(filterText) && isRunning == old(isRunning)
      ensures cancelFlag == old(cancelFlag) && progress == old(progress)
    {
      selectAllChecked := !selectAllChecked;
      for i := 0 to |config.fixes|
        modifies config
        invariant |config.fixes| == |old(config.fixes)|
        invariant forall j :: 0 <= j < i ==> config.fixes[j] == Fix(old(config.fixes[j].name), selectAllChecked)
        invariant forall j :: i <= j < |config.fixes| ==> config.fixes[j] == old(config.fixes[j])
        invariant config.Value() == old(config.Value()).(fixes := config.fixes)
        invariant config.saves == old(config.saves)
      {
        config.fixes := config.fixes[i := config.fixes[i].(enabled := selectAllChecked)];
      }
      config.Save();
    }

    /** The deferred loop: each recorded change goes through `set_fix_enabled`, in order. */
    method ApplyChanges(changes: seq<(string, bool)>)
      modifies config
      ensures config.Value() == old(config.Value()).(fixes := AppliedChanges(old(config.fixes), changes))
      ensures config.saves == old(config.saves) + PresentCount(old(config.fixes), changes)
    {
      for i := 0 to |changes|
        invariant config.Value() == old(config.Value()).(fixes := AppliedChanges(old(config.fixes), changes[..i]))
        invariant config.saves == old(config.saves) + PresentCount(old(config.fixes), changes[..i])
      {
        assert changes[..i + 1][..i] == changes[..i];
        AppliedChangesKeepNames(old(config.fixes), changes[..i]);
        SameNamesHasName(config.fixes, old(config.fixes), changes[i].0);
        config.SetFixEnabled(changes[i].0, changes[i].1);
      }
      assert changes[..|changes|] == changes;
    }

    /** The fix list's frame: scan the listed fixes for clicks, then apply what was recorded. */
    method UpdateFixList(clicked: set<nat>)
      modifies config
      ensures config.Value() == old(config.Value()).(fixes :=
        AppliedChanges(old(config.fixes), ToggleRequests(old(config.fixes), filterText, clicked)))
      ensures config.saves == old(config.saves) + |ToggleRequests(old(config.fixes), filterText, clicked)|
    {
      var changes := CollectChanges(config.fixes, filterText, clicked);
      RequestsNameListedFixes(config.fixes, filterText, clicked);
      ApplyChanges(changes);
    }
  }

  /**
   * As written: once a run has been cancelled, the flag stays set, so the next
   * run, with no new press, applies nothing although fixes are enabled.
   */
  method CancelThenRestart(app: Application, failedWrites: set<nat>) returns (second: seq<Event>)
    requires EnabledNames(app.config.fixes) != []
    modifies app
    ensures second == [] && Trace(app.config.Value(), None, failedWrites) != []
  {
    var job := app.StartProcessing();
    var first := app.RunInBackground(job, Some(0), failedWrites);
    job := app.StartProcessing();
    second := app.RunInBackground(job, None, failedWrites);
    RunAppliesEnabledFixes(app.config.Value(), failedWrites);
  }

  /** Corrected: a start that clears the flag lets the next run apply every enabled fix again. */
  method CancelThenRestartFresh(app: Application, failedWrites: set<nat>) returns (second: seq<Event>)
    requires EnabledNames(app.config.fixes) != []
    modifies app
    ensures second == Trace(app.config.Value(), None, failedWrites) && second != []
  {
    var job := app.StartProcessingFresh();
    var first := app.RunInBackground(job, Some(0), failedWrites);
    job := app.StartProcessingFresh();
    second := app.RunInBackground(job, None, failedWrites);
    RunAppliesEnabledFixes(app.config.Value(), failedWrites);
  }
}
