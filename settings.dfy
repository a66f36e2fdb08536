/**
 * The mode string handed to `nvidia-settings`: one entry per placed screen
 * that is not a DUMMY screen, in registry order, joined by `", "`, and the
 * command line that carries it.
 */
module Settings {
  import opened Wrappers
  import opened Text
  import opened Screens

  /** `re.match(r"DUMMY-\d", id)`: the match is anchored at the start only, so anything may follow. */
  predicate IsDummy(id: string)
  {
    |id| >= 7 && id[..6] == "DUMMY-" && IsDigit(id[6])
  }

  /** Only the first seven characters of an id decide whether it is a DUMMY screen. */
  lemma DummyDecidedByPrefix(id: string, rest: string)
    requires |id| >= 7
    ensures IsDummy(id + rest) == IsDummy(id)
  {
    assert (id + rest)[..6] == id[..6] && (id + rest)[6] == id[6];
  }

  /** A DUMMY id is `DUMMY-` and a digit, whatever follows. */
  lemma DummyOfDigit(d: char, rest: string)
    requires IsDigit(d)
    ensures IsDummy("DUMMY-" + [d] + rest)
  {
    var id := "DUMMY-" + [d] + rest;
    assert id[..6] == "DUMMY-" && id[6] == d;
  }

  const Pipeline: string := "{ForceCompositionPipeline=On}"

  /** `screen_settings(screen)`: `<id>: <resolution>_<rate> +<x>+<y> {ForceCompositionPipeline=On}`. */
  function ScreenSettings(s: Screen): string
    requires s.position.Some?
  {
    s.id + ": " + s.resolution + "_" + IntToDecimal(s.refreshRate) +
    " +" + IntToDecimal(s.position.value.x) + "+" + IntToDecimal(s.position.value.y) + " " + Pipeline
  }

  /** The screens `nvidia_settings` lists: placed and not DUMMY, in their order. */
  function Applied(screens: seq<Screen>): (r: seq<Screen>)
    ensures |r| <= |screens|
    ensures forall i :: 0 <= i < |r| ==> r[i].position.Some? && !IsDummy(r[i].id)
    ensures forall s :: s in r <==> s in screens && s.position.Some? && !IsDummy(s.id)
  {
    if screens == [] then []
    else
      var s := screens[0];
      (if s.position.Some? && !IsDummy(s.id) then [s] else []) + Applied(screens[1..])
  }

  /** The filter keeps the order: filtering two runs of screens is filtering each. */
  lemma {:induction false} AppliedAppend(a: seq<Screen>, b: seq<Screen>)
    ensures Applied(a + b) == Applied(a) + Applied(b)
  {
    if a == [] {
      assert a + b == b;
    } else {
      assert (a + b)[0] == a[0] && (a + b)[1..] == a[1..] + b;
      AppliedAppend(a[1..], b);
    }
  }

  /** The entry of each listed screen. */
  function Entries(screens: seq<Screen>): (r: seq<string>)
    requires forall i :: 0 <= i < |screens| ==> screens[i].position.Some?
    ensures |r| == |screens|
    ensures forall i :: 0 <= i < |screens| ==> r[i] == ScreenSettings(screens[i])
  {
    seq(|screens|, i requires 0 <= i < |screens| => ScreenSettings(screens[i]))
  }

  /** `', '.join(screen_settings(screen) for screen in screens.values() if …)`. */
  function MetaMode(t: Table): string
    requires WellFormed(t)
  {
    Join(Entries(Applied(Values(t))), ", ")
  }

  /** The command line that applies the mode. */
  function Command(mode: string): string
  {
    "nvidia-settings --assign CurrentMetaMode=\"" + mode + "\""
  }

  // ----- Reading the mode string back

  const CommandPrefix: string := "nvidia-settings --assign CurrentMetaMode=\""

  /** The mode a command line carries, if it has the shape of Command. */
  function CommandMode(cmd: string): Option<string>
  {
    if |cmd| > |CommandPrefix| && cmd[..|CommandPrefix|] == CommandPrefix && Last(cmd) == '"'
    then Some(cmd[|CommandPrefix| .. |cmd| - 1])
    else None
  }

  /** The command line carries exactly the mode it was built from. */
  lemma CommandRoundTrip(mode: string)
    ensures CommandMode(Command(mode)) == Some(mode)
  {
    var cmd := Command(mode);
    assert cmd == CommandPrefix + mode + "\"";
    assert cmd[..|CommandPrefix|] == CommandPrefix;
    assert cmd[|CommandPrefix| .. |cmd| - 1] == mode;
  }

  /** What one entry says about a screen. */
  datatype Setting = Setting(id: string, resolution: string, refreshRate: int, x: int, y: int)

  function SettingOf(s: Screen): Setting
    requires s.position.Some?
  {
    Setting(s.id, s.resolution, s.refreshRate, s.position.value.x, s.position.value.y)
  }

  /** Reads an entry: the words are `<id>:`, `<resolution>_<rate>`, `+<x>+<y>` and the pipeline option. */
  function DecodeEntry(e: string): Option<Setting>
  {
    var words := Split(e, ' ');
    if |words| != 4 || words[3] != Pipeline || words[0] == [] || Last(words[0]) != ':' then None
    else
      var mode, offset := Split(words[1], '_'), Split(words[2], '+');
      if |mode| != 2 || |offset| != 3 || offset[0] != [] then None
      else
        match (ParseInt(mode[1]), ParseInt(offset[1]), ParseInt(offset[2]))
        case (Some(rate), Some(x), Some(y)) => Some(Setting(words[0][..|words[0]| - 1], mode[0], rate, x, y))
        case _ => None
  }

  lemma JoinThree(a: string, b: string, c: string, sep: string)
    ensures Join([a, b, c], sep) == a + sep + b + sep + c
  {
    assert [a, b, c][1..] == [b, c] && [b, c][1..] == [c];
    assert Join([b, c], sep) == b + sep + c;
  }

  /** The four words of an entry, before they are joined by spaces. */
  function EntryWords(s: Screen): seq<string>
    requires s.position.Some?
  {
    var p := s.position.value;
    [s.id + ":", s.resolution + "_" + IntToDecimal(s.refreshRate),
     "+" + IntToDecimal(p.x) + "+" + IntToDecimal(p.y), Pipeline]
  }

  /** An entry is its four words joined by spaces, and none of them holds a space. */
  lemma EntryIsWords(s: Screen)
    requires s.position.Some? && IsScreenId(s.id) && IsResolution(s.resolution)
    ensures Split(ScreenSettings(s), ' ') == EntryWords(s)
  {
    var p := s.position.value;
    var words := EntryWords(s);
    ScreenIdExcludes(s.id, ' ');
    ResolutionExcludes(s.resolution, ' ');
    IntToDecimalExcludes(s.refreshRate, ' ');
    IntToDecimalExcludes(p.x, ' ');
    IntToDecimalExcludes(p.y, ' ');
    assert ' ' !in words[0] && ' ' !in words[1] && ' ' !in words[2] && ' ' !in words[3];
    WordsJoin(s);
    SplitJoin(words, ' ');
  }

  lemma WordsJoin(s: Screen)
    requires s.position.Some?
    ensures Join(EntryWords(s), " ") == ScreenSettings(s)
  {
    var words := EntryWords(s);
    JoinThree(words[1], words[2], words[3], " ");
    assert words[1..] == [words[1], words[2], words[3]];
    EntryConcat(s.id, s.resolution, IntToDecimal(s.refreshRate),
      IntToDecimal(s.position.value.x), IntToDecimal(s.position.value.y));
  }

  /** The f-string of an entry, regrouped as its four words joined by spaces. */
  lemma EntryConcat(id: string, resolution: string, rate: string, x: string, y: string)
    ensures (id + ":") + " " + ((resolution + "_" + rate) + " " + ("+" + x + "+" + y) + " " + Pipeline)
      == id + ": " + resolution + "_" + rate + " +" + x + "+" + y + " " + Pipeline
  {
    assert ": " == ":" + " " && " +" == " " + "+";
  }

  /** The second word splits at `_` into the resolution and the rate. */
  lemma ModeWordParts(resolution: string, rate: int)
    requires IsResolution(resolution)
    ensures Split(resolution + "_" + IntToDecimal(rate), '_') == [resolution, IntToDecimal(rate)]
  {
    var parts := [resolution, IntToDecimal(rate)];
    ResolutionExcludes(resolution, '_');
    IntToDecimalExcludes(rate, '_');
    assert parts[1..] == [IntToDecimal(rate)];
    SplitJoin(parts, '_');
  }

  /** The third word splits at `+` into an empty piece and the two coordinates. */
  lemma OffsetWordParts(x: int, y: int)
    ensures Split("+" + IntToDecimal(x) + "+" + IntToDecimal(y), '+') == ["", IntToDecimal(x), IntToDecimal(y)]
  {
    var parts := ["", IntToDecimal(x), IntToDecimal(y)];
    IntToDecimalExcludes(x, '+');
    IntToDecimalExcludes(y, '+');
    JoinThree("", IntToDecimal(x), IntToDecimal(y), "+");
    assert Join(parts, "+") == "+" + IntToDecimal(x) + "+" + IntToDecimal(y);
    SplitJoin(parts, '+');
  }

  /** The entry of a screen with a valid id and resolution reads back as that screen's settings. */
  lemma EntryRoundTrip(s: Screen)
    requires s.position.Some? && IsScreenId(s.id) && IsResolution(s.resolution)
    ensures DecodeEntry(ScreenSettings(s)) == Some(SettingOf(s))
  {
    var p := s.position.value;
    var words := EntryWords(s);
    EntryIsWords(s);
    ModeWordParts(s.resolution, s.refreshRate);
    OffsetWordParts(p.x, p.y);
    assert words[0][..|words[0]| - 1] == s.id;
    IntToDecimalRoundTrip(s.refreshRate);
    IntToDecimalRoundTrip(p.x);
    IntToDecimalRoundTrip(p.y);
  }

  /** Drops the space that `", "` leaves after each comma. */
  function DropSpace(p: string): string
  {
    if |p| > 0 && p[0] == ' ' then p[1..] else p
  }

  /** The entries of a mode string: cut at each comma, and the space after it dropped. */
  function SplitEntries(mode: string): seq<string>
  {
    if mode == [] then []
    else
      var pieces := Split(mode, ',');
      [pieces[0]] + seq(|pieces| - 1, i requires 0 <= i < |pieces| - 1 => DropSpace(pieces[i + 1]))
  }

  /** Each entry after the first, with the space `", "` puts before it. */
  function Spaced(entries: seq<string>): (r: seq<string>)
    ensures |r| == |entries|
  {
    if entries == [] then [] else [entries[0]] + seq(|entries| - 1, i requires 0 <= i < |entries| - 1 => " " + entries[i + 1])
  }

  lemma {:induction false} JoinSpaced(entries: seq<string>)
    ensures Join(entries, ", ") == Join(Spaced(entries), ",")
  {
    if |entries| > 1 {
      var tail := entries[1..];
      JoinSpaced(tail);
      var sp, spTail := Spaced(entries), Spaced(tail);
      JoinFirstSpaced(tail);
      assert sp[1..] == [" " + tail[0]] + spTail[1..];
      var rest := Join(spTail, ",");
      assert Join(entries, ", ") == entries[0] + ", " + rest;
      assert Join(sp, ",") == entries[0] + "," + (" " + rest);
      assert ", " == "," + " ";
    }
  }

  /** Putting a space before the first of the spaced entries puts it before their join. */
  lemma JoinFirstSpaced(tail: seq<string>)
    requires |tail| > 0
    ensures Join([" " + tail[0]] + Spaced(tail)[1..], ",") == " " + Join(Spaced(tail), ",")
  {
    var sp := Spaced(tail);
    var withSpace := [" " + tail[0]] + sp[1..];
    assert withSpace[1..] == sp[1..];
    if |tail| > 1 {
      assert Join(withSpace, ",") == " " + tail[0] + "," + Join(sp[1..], ",");
    }
  }

  /** Joining with `", "` and splitting the mode string again gives back the entries. */
  lemma ModeRoundTrip(entries: seq<string>)
    requires forall i :: 0 <= i < |entries| ==> |entries[i]| > 0 && ',' !in entries[i]
    ensures SplitEntries(Join(entries, ", ")) == entries
  {
    if entries != [] {
      JoinSpaced(entries);
      var sp := Spaced(entries);
      forall i | 0 <= i < |sp| ensures ',' !in sp[i] {
        if i > 0 {
          assert sp[i] == " " + entries[i];
        }
      }
      SplitJoin(sp, ',');
      var mode := Join(entries, ", ");
      assert mode != [] by {
        assert |Join(sp, ",")| >= |sp[0]|;
      }
      var decoded := SplitEntries(mode);
      assert Split(mode, ',') == sp;
      forall i | 0 <= i < |entries| ensures decoded[i] == entries[i] {
        if i > 0 {
          assert sp[i] == " " + entries[i];
          assert decoded[i] == DropSpace(sp[i]);
        }
      }
    }
  }

  lemma EntryHasNoComma(s: Screen)
    requires s.position.Some? && IsScreenId(s.id) && IsResolution(s.resolution)
    ensures ',' !in ScreenSettings(s) && |ScreenSettings(s)| > 0
  {
    ScreenIdExcludes(s.id, ',');
    ResolutionExcludes(s.resolution, ',');
    IntToDecimalExcludes(s.refreshRate, ',');
    IntToDecimalExcludes(s.position.value.x, ',');
    IntToDecimalExcludes(s.position.value.y, ',');
  }

  /**
   * The mode string lists, entry by entry, the settings of the placed
   * screens that are not DUMMY screens, in registry order.
   */
  lemma MetaModeRoundTrip(t: Table)
    requires WellFormed(t)
    requires forall k :: k in t.screens ==> IsScreenId(t.screens[k].id) && IsResolution(t.screens[k].resolution)
    ensures var listed, entries := Applied(Values(t)), SplitEntries(MetaMode(t));
      && |entries| == |listed|
      && forall i :: 0 <= i < |listed| ==> DecodeEntry(entries[i]) == Some(SettingOf(listed[i]))
  {
    var listed := Applied(Values(t));
    forall i | 0 <= i < |listed| ensures IsScreenId(listed[i].id) && IsResolution(listed[i].resolution) {
      var vs := Values(t);
      assert listed[i] in vs;
      var j :| 0 <= j < |vs| && vs[j] == listed[i];
      assert t.order[j] in t.screens && vs[j] == t.screens[t.order[j]];
    }
    var entries := Entries(listed);
    forall i | 0 <= i < |entries| ensures |entries[i]| > 0 && ',' !in entries[i] {
      EntryHasNoComma(listed[i]);
    }
    ModeRoundTrip(entries);
    forall i | 0 <= i < |listed| ensures DecodeEntry(entries[i]) == Some(SettingOf(listed[i])) {
      EntryRoundTrip(listed[i]);
    }
  }
}
