/**
 * Start-up (src/main.rs): load the saved configuration, or start from an empty
 * one, then merge in the fixes listed in the catalog of available checks. A
 * catalog entry is appended only when no fix of that name is present yet, so the
 * user's fixes and their flags survive and new checks arrive disabled.
 */
module Startup {
  import opened Wrappers
  import opened FixConfig

  /** The fix list after merging `available` into `known`, one catalog entry at a time. */
  function Merged(known: seq<Fix>, available: seq<Fix>): seq<Fix>
    decreases |available|
  {
    if available == [] then known
    else
      var merged := Merged(known, available[..|available| - 1]);
      var next := available[|available| - 1];
      if HasName(merged, next.name) then merged else merged + [next]
  }

  /** `f` is the first entry of `available` with its name. */
  predicate FirstOccurrence(available: seq<Fix>, f: Fix) {
    match IndexOfName(available, f.name)
    case Some(j) => available[j] == f
    case None => false
  }

  /** The merge leaves the known fixes untouched, as a prefix, in their order. */
  lemma {:induction false} MergeKeepsKnown(known: seq<Fix>, available: seq<Fix>)
    ensures |Merged(known, available)| >= |known|
    ensures Merged(known, available)[..|known|] == known
    decreases |available|
  {
    if available != [] {
      var merged := Merged(known, available[..|available| - 1]);
      MergeKeepsKnown(known, available[..|available| - 1]);
      assert (merged + [available[|available| - 1]])[..|known|] == merged[..|known|];
    }
  }

  /** A name is in the merged list exactly when it was known or is in the catalog. */
  lemma {:induction false} MergeNames(known: seq<Fix>, available: seq<Fix>, name: string)
    ensures HasName(Merged(known, available), name) <==> HasName(known, name) || HasName(available, name)
    decreases |available|
  {
    if available == [] {
    } else {
      var n := |available| - 1;
      var prefix := available[..n];
      var merged := Merged(known, prefix);
      var next := available[n];
      MergeNames(known, prefix, name);
      MergeNames(known, prefix, next.name);
      HasNameSnoc(prefix, next, name);
      assert available == prefix + [next];
      HasNameSnoc(merged, next, name);
    }
  }

  lemma HasNameSnoc(fixes: seq<Fix>, f: Fix, name: string)
    ensures HasName(fixes + [f], name) <==> HasName(fixes, name) || f.name == name
  {
    if HasName(fixes, name) {
      var j :| 0 <= j < |fixes| && fixes[j].name == name;
      assert (fixes + [f])[j] == fixes[j];
    }
    if HasName(fixes + [f], name) && f.name != name {
      var j :| 0 <= j < |fixes + [f]| && (fixes + [f])[j].name == name;
      assert fixes[j] == (fixes + [f])[j];
    }
    if f.name == name {
      assert (fixes + [f])[|fixes|] == f;
    }
  }

  /** Extending a list after a name's first occurrence does not move that occurrence. */
  lemma {:induction false} IndexOfNameSnoc(fixes: seq<Fix>, f: Fix, name: string)
    ensures HasName(fixes, name) ==> IndexOfName(fixes + [f], name) == IndexOfName(fixes, name)
    ensures !HasName(fixes, name) && f.name == name ==> IndexOfName(fixes + [f], name) == Some(|fixes|)
  {
    if fixes == [] {
      assert fixes + [f] == [f];
    } else {
      assert (fixes + [f])[0] == fixes[0];
      assert (fixes + [f])[1..] == fixes[1..] + [f];
      IndexOfNameSnoc(fixes[1..], f, name);
      if fixes[0].name != name {
        assert HasName(fixes, name) ==> HasName(fixes[1..], name) by {
          if HasName(fixes, name) {
            var j :| 0 <= j < |fixes| && fixes[j].name == name;
            assert fixes[1..][j - 1] == fixes[j];
          }
        }
      }
    }
  }

  /**
   * Every appended entry is a catalog entry whose name was not known, taken at
   * that name's first occurrence in the catalog.
   */
  lemma {:induction false} MergeAppendsFirstOccurrences(known: seq<Fix>, available: seq<Fix>)
    ensures var merged := Merged(known, available);
      forall i :: |known| <= i < |merged| ==>
        !HasName(known, merged[i].name) && FirstOccurrence(available, merged[i])
    decreases |available|
  {
    MergeKeepsKnown(known, available);
    if available != [] {
      var n := |available| - 1;
      var prefix := available[..n];
      var next := available[n];
      var before := Merged(known, prefix);
      var merged := Merged(known, available);
      MergeAppendsFirstOccurrences(known, prefix);
      MergeKeepsKnown(known, prefix);
      assert available == prefix + [next];
      forall i | |known| <= i < |before| ensures FirstOccurrence(available, before[i]) {
        var name := before[i].name;
        assert HasName(prefix, name);
        IndexOfNameSnoc(prefix, next, name);
        var j := IndexOfName(prefix, name).value;
        assert available[j] == prefix[j];
      }
      if !HasName(before, next.name) {
        MergeNames(known, prefix, next.name);
        IndexOfNameSnoc(prefix, next, next.name);
        assert merged == before + [next];
        forall i | |known| <= i < |merged|
          ensures !HasName(known, merged[i].name) && FirstOccurrence(available, merged[i])
        {
          if i < |before| { assert merged[i] == before[i]; }
        }
      }
    }
  }

  /** The appended entries follow the catalog's order of first occurrences. */
  lemma {:induction false} MergeFollowsCatalogOrder(known: seq<Fix>, available: seq<Fix>)
    ensures var merged := Merged(known, available);
      forall i, i' :: |known| <= i < i' < |merged| ==>
        && HasName(available, merged[i].name) && HasName(available, merged[i'].name)
        && IndexOfName(available, merged[i].name).value < IndexOfName(available, merged[i'].name).value
    decreases |available|
  {
    MergeKeepsKnown(known, available);
    if available != [] {
      var n := |available| - 1;
      var prefix := available[..n];
      var next := available[n];
      var before := Merged(known, prefix);
      var merged := Merged(known, available);
      MergeFollowsCatalogOrder(known, prefix);
      MergeAppendsFirstOccurrences(known, prefix);
      MergeKeepsKnown(known, prefix);
      assert available == prefix + [next];
      forall i | |known| <= i < |before|
        ensures HasName(available, before[i].name)
        ensures IndexOfName(available, before[i].name) == IndexOfName(prefix, before[i].name)
        ensures IndexOfName(available, before[i].name).value < n
      {
        var name := before[i].name;
        assert FirstOccurrence(prefix, before[i]);
        assert HasName(prefix, name);
        IndexOfNameSnoc(prefix, next, name);
      }
      if !HasName(before, next.name) {
        MergeNames(known, prefix, next.name);
        IndexOfNameSnoc(prefix, next, next.name);
        assert merged == before + [next];
        assert IndexOfName(available, next.name) == Some(n);
        forall i, i' | |known| <= i < i' < |merged|
          ensures HasName(available, merged[i].name) && HasName(available, merged[i'].name)
          ensures IndexOfName(available, merged[i].name).value < IndexOfName(available, merged[i'].name).value
        {
          assert merged[i] == before[i];
          if i' < |before| { assert merged[i'] == before[i']; }
        }
      }
    }
  }

  /** Merging into a list with unique names keeps the names unique. */
  lemma {:induction false} MergeKeepsNamesUnique(known: seq<Fix>, available: seq<Fix>)
    requires UniqueNames(known)
    ensures UniqueNames(Merged(known, available))
    decreases |available|
  {
    if available != [] {
      var n := |available| - 1;
      var before := Merged(known, available[..n]);
      var next := available[n];
      MergeKeepsNamesUnique(known, available[..n]);
      if !HasName(before, next.name) {
        var merged := before + [next];
        forall i, j | 0 <= i < j < |merged| ensures merged[i].name != merged[j].name {
          if j == |before| {
            assert merged[i] == before[i];
          } else {
            assert merged[i] == before[i] && merged[j] == before[j];
          }
        }
      }
    }
  }

  /** A catalog whose every name is already present changes nothing. */
  lemma {:induction false} MergeCoveredIsIdentity(known: seq<Fix>, available: seq<Fix>)
    requires forall i :: 0 <= i < |available| ==> HasName(known, available[i].name)
    ensures Merged(known, available) == known
    decreases |available|
  {
    if available != [] {
      MergeCoveredIsIdentity(known, available[..|available| - 1]);
      assert HasName(known, available[|available| - 1].name);
    }
  }

  /** Merging the same catalog a second time leaves the list as it is. */
  lemma MergeIdempotent(known: seq<Fix>, available: seq<Fix>)
    ensures Merged(Merged(known, available), available) == Merged(known, available)
  {
    var merged := Merged(known, available);
    forall i | 0 <= i < |available| ensures HasName(merged, available[i].name) {
      MergeNames(known, available, available[i].name);
    }
    MergeCoveredIsIdentity(merged, available);
  }

  /**
   * After merging a freshly loaded catalog: the known fixes come first and are
   * unchanged, every catalog line names some fix, and each added fix is disabled.
   */
  lemma MergeLoadedCatalog(known: seq<Fix>, lines: seq<string>)
    ensures var merged := Merged(known, FixesFromLines(lines));
      && |known| <= |merged| && merged[..|known|] == known
      && (forall i :: 0 <= i < |lines| ==> HasName(merged, lines[i]))
      && (forall i :: |known| <= i < |merged| ==> !merged[i].enabled)
  {
    var available := FixesFromLines(lines);
    var merged := Merged(known, available);
    MergeKeepsKnown(known, available);
    MergeAppendsFirstOccurrences(known, available);
    forall i | 0 <= i < |lines| ensures HasName(merged, lines[i]) {
      MergeNames(known, available, lines[i]);
      assert available[i].name == lines[i];
    }
    forall i | |known| <= i < |merged| ensures !merged[i].enabled {
      assert FirstOccurrence(available, merged[i]);
      var j := IndexOfName(available, merged[i].name).value;
      assert available[j] == merged[i];
    }
  }

  /** The merge loop: `push` each catalog entry whose name `any` does not find. */
  method MergeAvailableFixes(config: Config, available: seq<Fix>)
    modifies config
    ensures config.Value() == old(config.Value()).(fixes := Merged(old(config.fixes), available))
    ensures config.saves == old(config.saves)
  {
    for i := 0 to |available|
      invariant config.Value() == old(config.Value()).(fixes := Merged(old(config.fixes), available[..i]))
      invariant config.saves == old(config.saves)
    {
      assert available[..i + 1][..i] == available[..i];
      var present := Any(config.fixes, available[i].name);
      if !present {
        config.fixes := config.fixes + [available[i]];
      }
    }
    assert available[..|available|] == available;
  }

  /** `unwrap_or_else(|_| Config::new())`: the loaded configuration, or an empty one. */
  function LoadedOrNew(loaded: Option<ConfigValue>): ConfigValue {
    match loaded
    case Some(c) => c
    case None => EmptyConfig
  }

  /**
   * `main` up to showing the window. `loaded` is the parsed `config.json`, `None`
   * when it cannot be read; `catalog` the lines of `fixes.txt`, `None` when that
   * cannot be read, in which case `main` returns the error.
   */
  method Start(loaded: Option<ConfigValue>, catalog: Option<seq<string>>) returns (config: Option<Config>)
    ensures catalog.None? <==> config.None?
    ensures config.Some? ==> fresh(config.value) && config.value.saves == 0
    ensures config.Some? ==>
      config.value.Value() == LoadedOrNew(loaded).(fixes := Merged(LoadedOrNew(loaded).fixes, FixesFromLines(catalog.value)))
  {
    var c: Config;
    if loaded.Some? {
      c := new Config.FromValue(loaded.value);
    } else {
      c := new Config();
    }
    if catalog.None? {
      return None;
    }
    var available := LoadFixes(catalog.value);
    MergeAvailableFixes(c, available);
    return Some(c);
  }
}
