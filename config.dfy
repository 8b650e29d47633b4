/**
 * The persisted configuration (src/config.rs): the tool and project paths and
 * the ordered list of fixes, each a clang-tidy check name with an enabled flag.
 */
module FixConfig {
  import opened Wrappers

  /** One clang-tidy check the user may apply. */
  datatype Fix = Fix(name: string, enabled: bool)

  /** A copy of a configuration, as the worker receives it (the source derives Clone). */
  datatype ConfigValue = ConfigValue(
    runClangTidyPath: string,
    buildCommandsPath: string,
    projectPath: string,
    buildCommandsFilePath: string,
    fixes: seq<Fix>)

  /** What `Config::new()` builds: four empty strings and no fixes. */
  const EmptyConfig := ConfigValue("", "", "", "", [])

  /** Some fix in `fixes` is called `name`. */
  predicate HasName(fixes: seq<Fix>, name: string) {
    exists i :: 0 <= i < |fixes| && fixes[i].name == name
  }

  /** No two fixes share a name. */
  predicate UniqueNames(fixes: seq<Fix>) {
    forall i, j :: 0 <= i < j < |fixes| ==> fixes[i].name != fixes[j].name
  }

  /** The fixes carry the same names, in the same order. */
  predicate SameNames(a: seq<Fix>, b: seq<Fix>) {
    |a| == |b| && forall i :: 0 <= i < |a| ==> a[i].name == b[i].name
  }

  /** The position of the first fix called `name`, as `iter().find` locates it. */
  function IndexOfName(fixes: seq<Fix>, name: string): (r: Option<nat>)
    ensures r.Some? ==> r.value < |fixes| && fixes[r.value].name == name
    ensures r.Some? ==> forall j :: 0 <= j < r.value ==> fixes[j].name != name
    ensures r.None? <==> !HasName(fixes, name)
  {
    if fixes == [] then None
    else if fixes[0].name == name then Some(0)
    else match IndexOfName(fixes[1..], name)
      case None => None
      case Some(k) => Some(k + 1)
  }

  /** In a list with unique names, a fix's own name leads back to its position. */
  lemma IndexOfUniqueName(fixes: seq<Fix>, i: nat)
    requires UniqueNames(fixes) && i < |fixes|
    ensures IndexOfName(fixes, fixes[i].name) == Some(i)
  {
  }

  /** `iter_mut().find(|fix| fix.name == name)`: a scan for the first fix with that name. */
  method Find(fixes: seq<Fix>, name: string) returns (pos: Option<nat>)
    ensures pos == IndexOfName(fixes, name)
  {
    var i := 0;
    while i < |fixes|
      invariant 0 <= i <= |fixes|
      invariant forall j :: 0 <= j < i ==> fixes[j].name != name
    {
      if fixes[i].name == name {
        return Some(i);
      }
      i := i + 1;
    }
    return None;
  }

  /** `iter().any(|fix| fix.name == name)`. */
  method Any(fixes: seq<Fix>, name: string) returns (found: bool)
    ensures found <==> HasName(fixes, name)
  {
    found := false;
    var i := 0;
    while i < |fixes| && !found
      invariant 0 <= i <= |fixes|
      invariant found ==> HasName(fixes, name)
      invariant !found ==> forall j :: 0 <= j < i ==> fixes[j].name != name
    {
      found := fixes[i].name == name;
      i := i + 1;
    }
  }

  /**
   * The fix list after `set_fix_enabled(name, enabled)`: the first fix called
   * `name`, and only that one, gets the new flag.
   */
  function WithFixEnabled(fixes: seq<Fix>, name: string, enabled: bool): (r: seq<Fix>)
    ensures SameNames(r, fixes)
    ensures forall i :: 0 <= i < |fixes| ==>
      r[i] == if fixes[i].name == name && !HasName(fixes[..i], name) then Fix(name, enabled) else fixes[i]
  {
    match IndexOfName(fixes, name)
    case None => fixes
    case Some(k) =>
      assert forall i :: 0 <= i < |fixes| ==> (HasName(fixes[..i], name) <==> k < i) by {
        forall i | 0 <= i < |fixes| ensures HasName(fixes[..i], name) <==> k < i {
          if k < i { assert fixes[..i][k].name == name; }
        }
      }
      fixes[k := fixes[k].(enabled := enabled)]
  }

  /** A name that no fix carries leaves the list as it was. */
  lemma SetUnknownFixChangesNothing(fixes: seq<Fix>, name: string, enabled: bool)
    requires !HasName(fixes, name)
    ensures WithFixEnabled(fixes, name, enabled) == fixes
  {
    var r := WithFixEnabled(fixes, name, enabled);
    forall i | 0 <= i < |fixes| ensures r[i] == fixes[i] {
      assert fixes[i].name != name;
    }
  }

  /** A second `set_fix_enabled` on the same name overrides the first; with equal flags it is idempotent. */
  lemma SetFixEnabledTwice(fixes: seq<Fix>, name: string, first: bool, second: bool)
    ensures WithFixEnabled(WithFixEnabled(fixes, name, first), name, second)
         == WithFixEnabled(fixes, name, second)
  {
    var once := WithFixEnabled(fixes, name, first);
    var twice := WithFixEnabled(once, name, second);
    var direct := WithFixEnabled(fixes, name, second);
    forall i | 0 <= i < |fixes| ensures twice[i] == direct[i] {
      assert SameNames(once[..i], fixes[..i]);
      assert HasName(once[..i], name) <==> HasName(fixes[..i], name) by {
        if HasName(once[..i], name) {
          var j :| 0 <= j < i && once[..i][j].name == name;
          assert fixes[..i][j].name == name;
        }
        if HasName(fixes[..i], name) {
          var j :| 0 <= j < i && fixes[..i][j].name == name;
          assert once[..i][j].name == name;
        }
      }
    }
  }

  /** Toggles of two different names do not interfere: they commute. */
  lemma SetFixEnabledCommutes(fixes: seq<Fix>, a: string, x: bool, b: string, y: bool)
    requires a != b
    ensures WithFixEnabled(WithFixEnabled(fixes, a, x), b, y)
         == WithFixEnabled(WithFixEnabled(fixes, b, y), a, x)
  {
    var ab := WithFixEnabled(WithFixEnabled(fixes, a, x), b, y);
    var ba := WithFixEnabled(WithFixEnabled(fixes, b, y), a, x);
    forall i | 0 <= i < |fixes| ensures ab[i] == ba[i] {
      SameNamesHasName(WithFixEnabled(fixes, a, x)[..i], fixes[..i], b);
      SameNamesHasName(WithFixEnabled(fixes, b, y)[..i], fixes[..i], a);
    }
  }

  /** Lists with the same names agree on which names they contain. */
  lemma SameNamesHasName(a: seq<Fix>, b: seq<Fix>, name: string)
    requires SameNames(a, b)
    ensures HasName(a, name) <==> HasName(b, name)
  {
    if HasName(a, name) {
      var j :| 0 <= j < |a| && a[j].name == name;
      assert b[j].name == name;
    }
    if HasName(b, name) {
      var j :| 0 <= j < |b| && b[j].name == name;
      assert a[j].name == name;
    }
  }

  /** The fixes that `load_fixes` reads from a text of lines: one disabled fix per line, in line order. */
  function FixesFromLines(lines: seq<string>): (r: seq<Fix>)
    ensures |r| == |lines|
    ensures forall i :: 0 <= i < |lines| ==> r[i].name == lines[i] && !r[i].enabled
  {
    if lines == [] then [] else [Fix(lines[0], false)] + FixesFromLines(lines[1..])
  }

  /** `load_fixes`, once the file's lines have been read: a loop pushing one fix per line. */
  method LoadFixes(lines: seq<string>) returns (fixes: seq<Fix>)
    ensures fixes == FixesFromLines(lines)
  {
    fixes := [];
    for i := 0 to |lines|
      invariant |fixes| == i
      invariant forall j :: 0 <= j < i ==> fixes[j] == Fix(lines[j], false)
    {
      fixes := fixes + [Fix(lines[i], false)];
    }
  }

  /** The live configuration, whose setters change it in place and save it. */
  class Config {
    var runClangTidyPath: string
    var buildCommandsPath: string
    var projectPath: string
    var buildCommandsFilePath: string
    var fixes: seq<Fix>
    /** How many times `save()` has written the configuration out. */
    ghost var saves: nat

    /** `Config::new()`. */
    constructor ()
      ensures Value() == EmptyConfig && saves == 0
    {
      runClangTidyPath, buildCommandsPath, projectPath, buildCommandsFilePath := "", "", "", "";
      fixes := [];
      saves := 0;
    }

    /** A configuration as `from_json_file` reads it back. */
    constructor FromValue(v: ConfigValue)
      ensures Value() == v && saves == 0
    {
      runClangTidyPath, buildCommandsPath := v.runClangTidyPath, v.buildCommandsPath;
      projectPath, buildCommandsFilePath := v.projectPath, v.buildCommandsFilePath;
      fixes := v.fixes;
      saves := 0;
    }

    /** `clone()`: the current contents, detached from this object. */
    function Value(): ConfigValue
      reads this
    {
      ConfigValue(runClangTidyPath, buildCommandsPath, projectPath, buildCommandsFilePath, fixes)
    }

    /** `save()`; writing the JSON file is not part of this model. */
    ghost method Save()
      modifies this`saves
      ensures saves == old(saves) + 1
    {
      saves := saves + 1;
    }

    method SetRunClangTidyPath(path: string)
      modifies this
      ensures Value() == old(Value()).(runClangTidyPath := path)
      ensures saves == old(saves) + 1
    {
      runClangTidyPath := path;
      Save();
    }

    method SetProjectPath(path: string)
      modifies this
      ensures Value() == old(Value()).(projectPath := path)
      ensures saves == old(saves) + 1
    {
      projectPath := path;
      Save();
    }

    method SetBuildCommandsPath(path: string)
      modifies this
      ensures Value() == old(Value()).(buildCommandsPath := path)
      ensures saves == old(saves) + 1
    {
      buildCommandsPath := path;
      Save();
    }

    /** Sets the flag of the first fix called `name`; saves only when there is one. */
    method SetFixEnabled(name: string, enabled: bool)
      modifies this
      ensures Value() == old(Value()).(fixes := WithFixEnabled(old(fixes), name, enabled))
      ensures saves == old(saves) + (if HasName(old(fixes), name) then 1 else 0)
    {
      var pos := Find(fixes, name);
      if pos.Some? {
        fixes := fixes[pos.value := fixes[pos.value].(enabled := enabled)];
        Save();
      }
    }
  }
}
