/**
 * The whole run of `nvx`: the guard on the command-line arguments, reading
 * the layout and the screens from the configuration (`parse_user_config`),
 * the position pass and the mode string of the `nvidia-settings` command.
 * Reading the configuration file, running the command and printing are not
 * part of this model: the parsed file is a parameter, the command line the
 * result.
 */
module Nvx {
  import opened Wrappers
  import opened Text
  import opened Config
  import opened Layout
  import opened Screens
  import opened Positions
  import opened Settings

  /** The sections whose name is `Screen_` and digits, in the order of the file. */
  function ScreenSections(names: seq<string>): (r: seq<string>)
    ensures |r| <= |names|
    ensures forall s :: s in r <==> s in names && IsScreenSection(s)
  {
    if names == [] then []
    else
      var rest := ScreenSections(names[..|names| - 1]);
      if IsScreenSection(Last(names)) then rest + [Last(names)] else rest
  }

  /** Filtering keeps the order: the sections of two runs of names are the sections of each. */
  lemma {:induction false} ScreenSectionsAppend(a: seq<string>, b: seq<string>)
    ensures ScreenSections(a + b) == ScreenSections(a) + ScreenSections(b)
  {
    if b == [] {
      assert a + b == a;
    } else {
      var ab := a + b;
      assert ab[..|ab| - 1] == a + b[..|b| - 1] && Last(ab) == Last(b);
      ScreenSectionsAppend(a, b[..|b| - 1]);
    }
  }

  /** The guard of the command line: a non-zero wrap needs layout arguments. */
  predicate WrapWithoutOverride(layoutArgs: seq<int>, wrap: Option<int>)
  {
    wrap.Some? && wrap.value != 0 && |layoutArgs| == 0
  }

  /**
   * `parse_user_config`: the layout first (the override or the Layout
   * section), then the screen sections, then the screens dict.
   */
  function UserConfig(config: ConfigFile, override: seq<int>, wrap: Option<int>): (r: Result<(Matrix, Table), Fault>)
    ensures r.Ok? ==> WellFormed(r.value.1)
  {
    var layout :- SelectLayout(config, override, wrap);
    var sections := ScreenSections(SectionNames(config));
    if sections == [] then Err(NoScreenSections)
    else
      var screens :- ParsedScreens(config, sections);
      Ok((layout, screens))
  }

  /**
   * `main`: the argument guard, `parse_user_config`, `compute_screen_positions`
   * and the command `nvidia_settings` runs.
   */
  function Invocation(config: ConfigFile, layoutArgs: seq<int>, wrap: Option<int>): Result<string, Fault>
  {
    if WrapWithoutOverride(layoutArgs, wrap) then Err(WrapWithoutLayout)
    else
      var parsed :- UserConfig(config, layoutArgs, wrap);
      var placed :- Placement(parsed.0, parsed.1);
      Ok(Command(MetaMode(WithPositions(parsed.1, placed))))
  }

  // ----- The run, in place

  /** `parse_user_config`, filling a fresh registry for the screens. */
  method ParseUserConfig(config: ConfigFile, override: seq<int>, wrap: Option<int>)
    returns (r: Result<(Matrix, ScreenRegistry), Fault>)
    ensures UserConfig(config, override, wrap).Err? ==> r == Err(UserConfig(config, override, wrap).error)
    ensures UserConfig(config, override, wrap).Ok? ==> var (layout, t) := UserConfig(config, override, wrap).value;
      && r.Ok? && r.value.0 == layout && fresh(r.value.1)
      && r.value.1.Valid() && r.value.1.Contents() == t
  {
    var layout :- SelectLayout(config, override, wrap);
    var sections := ScreenSections(SectionNames(config));
    if sections == [] {
      return Err(NoScreenSections);
    }
    var screens :- ParseScreens(config, sections);
    return Ok((layout, screens));
  }

  /** `main`, run step by step on the registry: its result is the command Invocation describes. */
  method Run(config: ConfigFile, layoutArgs: seq<int>, wrap: Option<int>) returns (r: Result<string, Fault>)
    ensures r == Invocation(config, layoutArgs, wrap)
  {
    if WrapWithoutOverride(layoutArgs, wrap) {
      return Err(WrapWithoutLayout);
    }
    var parsed :- ParseUserConfig(config, layoutArgs, wrap);
    var layout, screens := parsed.0, parsed.1;
    ghost var t := screens.Contents();
    var outcome := ComputeScreenPositions(layout, screens);
    if outcome.Fail? {
      return Err(outcome.error);
    }
    assert screens.Contents() == WithPositions(t, Placement(layout, t).value);
    r := Ok(Command(MetaMode(screens.Contents())));
  }

  // ----- What a run does

  /** A zero wrap is falsy: without layout arguments it is ignored and the Layout section is used. */
  lemma ZeroWrapIgnored(config: ConfigFile)
    ensures Invocation(config, [], Some(0)) == Invocation(config, [], None)
  {
    assert UserConfig(config, [], Some(0)) == UserConfig(config, [], None);
  }

  /** A non-zero wrap without layout arguments raises before the configuration is read. */
  lemma WrapNeedsLayout(config: ConfigFile, wrap: int)
    requires wrap != 0
    ensures Invocation(config, [], Some(wrap)) == Err(WrapWithoutLayout)
  {
  }

  /** A configuration without screen sections raises once the layout is chosen. */
  lemma NoScreensRaises(config: ConfigFile, layoutArgs: seq<int>, wrap: Option<int>)
    requires !WrapWithoutOverride(layoutArgs, wrap)
    requires SelectLayout(config, layoutArgs, wrap).Ok?
    requires forall i :: 0 <= i < |config| ==> !IsScreenSection(config[i].name)
    ensures Invocation(config, layoutArgs, wrap) == Err(NoScreenSections)
  {
    var names := SectionNames(config);
    NoScreenSectionsAmong(names);
    assert UserConfig(config, layoutArgs, wrap) == Err(NoScreenSections);
  }

  lemma {:induction false} NoScreenSectionsAmong(names: seq<string>)
    requires forall i :: 0 <= i < |names| ==> !IsScreenSection(names[i])
    ensures ScreenSections(names) == []
  {
    if names != [] {
      NoScreenSectionsAmong(names[..|names| - 1]);
    }
  }

  /**
   * A successful run issues `nvidia-settings` with a mode string whose
   * entries are, one by one, the settings of the placed screens that are not
   * DUMMY screens, in the order of the dict, each at the position the pass
   * gave it.
   */
  lemma RunListsPlacedScreens(config: ConfigFile, layoutArgs: seq<int>, wrap: Option<int>)
    requires Invocation(config, layoutArgs, wrap).Ok?
    ensures var parsed := UserConfig(config, layoutArgs, wrap).value;
      var placed := Placement(parsed.0, parsed.1).value;
      var t := WithPositions(parsed.1, placed);
      var listed := Applied(Values(t));
      var mode := CommandMode(Invocation(config, layoutArgs, wrap).value);
      && mode.Some?
      && |SplitEntries(mode.value)| == |listed|
      && (forall i :: 0 <= i < |listed| ==> DecodeEntry(SplitEntries(mode.value)[i]) == Some(SettingOf(listed[i])))
      && (forall i :: 0 <= i < |listed| ==> listed[i].position.Some? && !IsDummy(listed[i].id))
  {
    var parsed := UserConfig(config, layoutArgs, wrap).value;
    var layout, screens := parsed.0, parsed.1;
    var sections := ScreenSections(SectionNames(config));
    ParsedScreensTable(config, sections);
    var placed := Placement(layout, screens).value;
    var t := WithPositions(screens, placed);
    WithPositionsKeepsRecords(screens, placed);
    CommandRoundTrip(MetaMode(t));
    MetaModeRoundTrip(t);
  }

  /**
   * After a successful run, a screen has a position exactly when the layout
   * names it; a screen the layout never names keeps no position.
   */
  lemma PositionedIffInLayout(config: ConfigFile, layoutArgs: seq<int>, wrap: Option<int>, k: int)
    requires Invocation(config, layoutArgs, wrap).Ok?
    requires k in UserConfig(config, layoutArgs, wrap).value.1.screens
    ensures var parsed := UserConfig(config, layoutArgs, wrap).value;
      var t := WithPositions(parsed.1, Placement(parsed.0, parsed.1).value);
      k in t.screens && (t.screens[k].position.Some? <==> exists i :: 0 <= i < |parsed.0| && k in parsed.0[i])
  {
    var parsed := UserConfig(config, layoutArgs, wrap).value;
    ParsedScreensTable(config, ScreenSections(SectionNames(config)));
    PlacementOk(parsed.0, parsed.1);
    WithPositionsKeepsRecords(parsed.1, Placement(parsed.0, parsed.1).value);
  }

  /**
   * With layout arguments and no wrap, the screens form one row: the `j`-th
   * argument sits at the sum of the widths before it, at the top.
   */
  lemma OneRowWithoutWrap(config: ConfigFile, layoutArgs: seq<int>, j: nat)
    requires |layoutArgs| > 0 && j < |layoutArgs|
    requires Invocation(config, layoutArgs, None).Ok?
    requires forall j' :: j < j' < |layoutArgs| ==> layoutArgs[j'] != layoutArgs[j]
    ensures var parsed := UserConfig(config, layoutArgs, None).value;
      var placed := Placement(parsed.0, parsed.1).value;
      && layoutArgs[j] in placed
      && placed[layoutArgs[j]] == Pos(SumWidths(layoutArgs[..j], parsed.1), 0)
  {
    var parsed := UserConfig(config, layoutArgs, None).value;
    assert parsed.0 == [layoutArgs];
    assert LastOccurrence(parsed.0, 0, j);
    PlacementAt(parsed.0, parsed.1, 0, j);
  }
}
