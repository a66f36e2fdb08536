/**
 * Screen records, one per `Screen_<n>` section, keyed by `<n>`. The records
 * are kept in a registry that, like a Python dict, remembers the order in
 * which each key was first stored.
 */
module Screens {
  import opened Wrappers
  import opened Text
  import opened Config

  /** The pixel offset of a screen's top-left corner. */
  datatype Pos = Pos(x: int, y: int)

  /** One screen dict: `id`, `name`, `resolution`, `width`, `height`, `refresh_rate` and, once placed, `position`. */
  datatype Screen = Screen(
    id: string,
    name: string,
    resolution: string,
    width: nat,
    height: nat,
    refreshRate: int,
    position: Option<Pos>)

  // ----- Field formats

  /** `re.match(r'^Screen_\d+$', section)`. */
  predicate IsScreenSection(name: string)
  {
    |name| > 7 && name[..7] == "Screen_" && AllDigits(name[7..])
  }

  /** The number `<n>` of a section `Screen_<n>`. */
  function ScreenKey(name: string): nat
    requires IsScreenSection(name)
  {
    DigitsValue(name[7..])
  }

  /** ScreenKey is what `int(section.split('_')[-1])` returns for a screen section. */
  lemma ScreenKeyIsSuffixInt(name: string)
    requires IsScreenSection(name)
    ensures ParseInt(Last(Split(name, '_'))) == Some(ScreenKey(name))
  {
    var digits := name[7..];
    DigitsHaveNoUnderscore(digits);
    assert Join(["Screen", digits], "_") == name;
    SplitJoin(["Screen", digits], '_');
    ParseIntOfDigits(digits);
  }

  /**
   * `re.match(r'^\w+-\d+$', id)`: word characters, one dash, digits. Neither
   * a word character nor a digit is a dash, so the id has exactly one dash.
   */
  predicate IsScreenId(id: string)
  {
    var parts := Split(id, '-');
    |parts| == 2 && |parts[0]| > 0 && AllWordChars(parts[0]) && |parts[1]| > 0 && AllDigits(parts[1])
  }

  /** Every connector name followed by a dash and a number is a valid id. */
  lemma ScreenIdOfParts(connector: string, number: string)
    requires |connector| > 0 && AllWordChars(connector)
    requires |number| > 0 && AllDigits(number)
    ensures IsScreenId(connector + "-" + number)
  {
    WordCharsExclude(connector, '-');
    DigitsExclude(number, '-');
    assert Join([connector, number], "-") == connector + "-" + number;
    SplitJoin([connector, number], '-');
  }

  /** A valid id is its connector name, a dash and its number. */
  lemma ScreenIdParts(id: string)
    requires IsScreenId(id)
    ensures var parts := Split(id, '-');
      id == parts[0] + "-" + parts[1] && AllWordChars(parts[0]) && AllDigits(parts[1])
  {
    var parts := Split(id, '-');
    assert parts[1..] == [parts[1]];
    assert Join(parts, "-") == parts[0] + "-" + Join([parts[1]], "-");
  }

  /** A valid id holds word characters and a dash, so no other character. */
  lemma ScreenIdExcludes(id: string, c: char)
    requires IsScreenId(id) && !IsWordChar(c) && c != '-'
    ensures c !in id
  {
    ScreenIdParts(id);
    var parts := Split(id, '-');
    WordCharsExclude(parts[0], c);
    DigitsExclude(parts[1], c);
  }

  /** `re.match(r'^\d+x\d+$', resolution)`. */
  predicate IsResolution(r: string)
  {
    var parts := Split(r, 'x');
    |parts| == 2 && |parts[0]| > 0 && AllDigits(parts[0]) && |parts[1]| > 0 && AllDigits(parts[1])
  }

  /** The first number of a resolution `WxH`. */
  function ResolutionWidth(r: string): nat
    requires IsResolution(r)
  {
    DigitsValue(Split(r, 'x')[0])
  }

  /** The second number of a resolution `WxH`. */
  function ResolutionHeight(r: string): nat
    requires IsResolution(r)
  {
    DigitsValue(Split(r, 'x')[1])
  }

  /** A valid resolution holds digits and an `x`, so no other character. */
  lemma ResolutionExcludes(r: string, c: char)
    requires IsResolution(r) && !IsDigit(c) && c != 'x'
    ensures c !in r
  {
    var parts := Split(r, 'x');
    assert parts[1..] == [parts[1]];
    assert r == Join(parts, "x") == parts[0] + "x" + Join([parts[1]], "x");
    DigitsExclude(parts[0], c);
    DigitsExclude(parts[1], c);
  }

  /** `map(int, resolution.split('x'))` on a valid resolution gives its width and its height. */
  lemma ResolutionInts(r: string)
    requires IsResolution(r)
    ensures var parts := Split(r, 'x');
      ParseInt(parts[0]) == Some(ResolutionWidth(r) as int) && ParseInt(parts[1]) == Some(ResolutionHeight(r) as int)
  {
    var parts := Split(r, 'x');
    ParseIntOfDigits(parts[0]);
    ParseIntOfDigits(parts[1]);
  }

  /** A resolution as a user writes it. */
  function FormatResolution(width: nat, height: nat): string
  {
    NatToDecimal(width) + "x" + NatToDecimal(height)
  }

  /** A written resolution is valid and reads back as the same width and height. */
  lemma ResolutionRoundTrip(width: nat, height: nat)
    ensures IsResolution(FormatResolution(width, height))
    ensures ResolutionWidth(FormatResolution(width, height)) == width
    ensures ResolutionHeight(FormatResolution(width, height)) == height
  {
    var w, h := NatToDecimal(width), NatToDecimal(height);
    DigitsExclude(w, 'x');
    DigitsExclude(h, 'x');
    assert Join([w, h], "x") == FormatResolution(width, height);
    SplitJoin([w, h], 'x');
    NatToDecimalValue(width);
    NatToDecimalValue(height);
  }

  // ----- One section

  /**
   * The body of the loop of `parse_screens` for one section: the key, then
   * the id and its check, the name, the resolution and its check, the width
   * and height, and the refresh rate, failing at the first step that raises.
   * A new record has no position.
   */
  function ParseScreenSection(config: ConfigFile, section: string): (r: Result<(int, Screen), Fault>)
    ensures r.Ok? ==> var s := r.value.1;
      && IsScreenId(s.id) && IsResolution(s.resolution)
      && s.width == ResolutionWidth(s.resolution) && s.height == ResolutionHeight(s.resolution)
      && s.position == None
    ensures r.Ok? ==> var (key, s) := r.value;
      && ParseInt(Last(Split(section, '_'))) == Some(key)
      && Get(config, section, "ScreenID") == Ok(s.id)
      && Get(config, section, "ScreenName") == Ok(s.name)
      && Get(config, section, "ScreenResolution") == Ok(s.resolution)
      && Get(config, section, "ScreenRefreshRate").Ok?
      && ParseInt(Get(config, section, "ScreenRefreshRate").value) == Some(s.refreshRate)
  {
    var key :- IntOf(Last(Split(section, '_')));
    var id :- Get(config, section, "ScreenID");
    if !IsScreenId(id) then Err(BadScreenId(id))
    else
      var name :- Get(config, section, "ScreenName");
      var resolution :- Get(config, section, "ScreenResolution");
      if !IsResolution(resolution) then Err(BadResolution(resolution))
      else
        var rateText :- Get(config, section, "ScreenRefreshRate");
        var rate :- IntOf(rateText);
        Ok((key, Screen(id, name, resolution, ResolutionWidth(resolution), ResolutionHeight(resolution), rate, None)))
  }

  /** The two format checks of a screen section raise on the values they refuse. */
  lemma ScreenSectionChecks(config: ConfigFile, section: string)
    requires IsScreenSection(section)
    ensures var id := Get(config, section, "ScreenID");
      id.Ok? && !IsScreenId(id.value) ==> ParseScreenSection(config, section) == Err(BadScreenId(id.value))
    ensures var id, name, res := Get(config, section, "ScreenID"), Get(config, section, "ScreenName"),
        Get(config, section, "ScreenResolution");
      id.Ok? && IsScreenId(id.value) && name.Ok? && res.Ok? && !IsResolution(res.value) ==>
        ParseScreenSection(config, section) == Err(BadResolution(res.value))
    ensures var id, name, res, rate := Get(config, section, "ScreenID"), Get(config, section, "ScreenName"),
        Get(config, section, "ScreenResolution"), Get(config, section, "ScreenRefreshRate");
      id.Ok? && IsScreenId(id.value) && name.Ok? && res.Ok? && IsResolution(res.value) &&
      rate.Ok? && ParseInt(rate.value).None? ==>
        ParseScreenSection(config, section) == Err(NotAnInteger(rate.value))
  {
    ScreenKeyIsSuffixInt(section);
  }

  /** A screen section as the configuration file holds it. */
  function FormatSection(key: nat, s: Screen): Section
  {
    Section("Screen_" + NatToDecimal(key), [
      ("ScreenID", s.id),
      ("ScreenName", s.name),
      ("ScreenResolution", s.resolution),
      ("ScreenRefreshRate", IntToDecimal(s.refreshRate))])
  }

  /**
   * Conversely, a section whose values are all present and well formed
   * parses to the record that holds them.
   */
  lemma ScreenSectionOfFields(config: ConfigFile, section: string, key: int, s: Screen)
    requires ParseInt(Last(Split(section, '_'))) == Some(key)
    requires Get(config, section, "ScreenID") == Ok(s.id) && IsScreenId(s.id)
    requires Get(config, section, "ScreenName") == Ok(s.name)
    requires Get(config, section, "ScreenResolution") == Ok(s.resolution) && IsResolution(s.resolution)
    requires s.width == ResolutionWidth(s.resolution) && s.height == ResolutionHeight(s.resolution)
    requires Get(config, section, "ScreenRefreshRate").Ok?
    requires ParseInt(Get(config, section, "ScreenRefreshRate").value) == Some(s.refreshRate)
    requires s.position == None
    ensures ParseScreenSection(config, section) == Ok((key, s))
  {
  }

  /** A well-formed unplaced record written as a section reads back as the same key and record. */
  lemma SectionRoundTrip(key: nat, s: Screen)
    requires IsScreenId(s.id) && IsResolution(s.resolution)
    requires s.width == ResolutionWidth(s.resolution) && s.height == ResolutionHeight(s.resolution)
    requires s.position == None
    ensures ParseScreenSection([FormatSection(key, s)], FormatSection(key, s).name) == Ok((key, s))
  {
    var section := FormatSection(key, s);
    var name := section.name;
    assert name[..7] == "Screen_" && name[7..] == NatToDecimal(key);
    ScreenKeyIsSuffixInt(name);
    NatToDecimalValue(key);
    FormattedOptions(key, s);
    IntToDecimalRoundTrip(s.refreshRate);
    ScreenSectionOfFields([section], name, key, s);
  }

  /** The values of a written section are found under their option names. */
  lemma FormattedOptions(key: nat, s: Screen)
    ensures var section := FormatSection(key, s);
      && Get([section], section.name, "ScreenID") == Ok(s.id)
      && Get([section], section.name, "ScreenName") == Ok(s.name)
      && Get([section], section.name, "ScreenResolution") == Ok(s.resolution)
      && Get([section], section.name, "ScreenRefreshRate") == Ok(IntToDecimal(s.refreshRate))
  {
    var section := FormatSection(key, s);
    var o := section.options;
    assert Options([section], section.name) == Ok(o);
    assert Lookup(o[1..], "ScreenName") == Some(s.name);
    assert Lookup(o[2..], "ScreenResolution") == Some(s.resolution);
    assert o[2..][1..] == o[3..];
    assert Lookup(o[3..], "ScreenRefreshRate") == Some(IntToDecimal(s.refreshRate));
    assert Lookup(o[1..], "ScreenResolution") == Lookup(o[2..], "ScreenResolution");
    assert Lookup(o[1..], "ScreenRefreshRate") == Lookup(o[2..], "ScreenRefreshRate") == Lookup(o[3..], "ScreenRefreshRate");
  }

  // ----- The registry

  /** The `screens` dict: its keys in first-insertion order, and the record of each key. */
  datatype Table = Table(order: seq<int>, screens: map<int, Screen>)

  /** The order lists every key once and nothing else. */
  ghost predicate WellFormed(t: Table)
  {
    && (forall i, j :: 0 <= i < j < |t.order| ==> t.order[i] != t.order[j])
    && (forall i :: 0 <= i < |t.order| ==> t.order[i] in t.screens)
    && (forall k :: k in t.screens ==> k in t.order)
  }

  const Empty: Table := Table([], map[])

  /** `screens[key] = screen`: a new key goes last, an existing key keeps its place. */
  function Insert(t: Table, key: int, s: Screen): (r: Table)
    ensures WellFormed(t) ==> WellFormed(r)
  {
    Table(if key in t.screens then t.order else t.order + [key], t.screens[key := s])
  }

  /** `screens.values()`, in dict order. */
  function Values(t: Table): (vs: seq<Screen>)
    requires WellFormed(t)
    ensures |vs| == |t.order|
    ensures forall i :: 0 <= i < |t.order| ==> vs[i] == t.screens[t.order[i]]
  {
    seq(|t.order|, i requires 0 <= i < |t.order| => t.screens[t.order[i]])
  }

  /**
   * Storing under a key already present replaces its record in place;
   * storing under a new key appends the record; no other record changes.
   */
  lemma InsertValues(t: Table, key: int, s: Screen)
    requires WellFormed(t)
    ensures Insert(t, key, s).screens[key] == s
    ensures forall k :: k != key ==> (k in Insert(t, key, s).screens <==> k in t.screens)
    ensures forall k :: k != key && k in t.screens ==> Insert(t, key, s).screens[k] == t.screens[k]
    ensures key in t.screens ==>
      && |Values(Insert(t, key, s))| == |Values(t)|
      && forall i :: 0 <= i < |Values(t)| ==>
           Values(Insert(t, key, s))[i] == if t.order[i] == key then s else Values(t)[i]
    ensures key !in t.screens ==> Values(Insert(t, key, s)) == Values(t) + [s]
  {
  }

  /** The dict after storing each record under its key, in order. */
  function Fold(entries: seq<(int, Screen)>): (t: Table)
    ensures WellFormed(t)
  {
    if entries == [] then Empty
    else Insert(Fold(entries[..|entries| - 1]), Last(entries).0, Last(entries).1)
  }

  /** Storing one more record is one more insertion into the dict. */
  lemma FoldSnoc(entries: seq<(int, Screen)>, e: (int, Screen))
    ensures Fold(entries + [e]) == Insert(Fold(entries), e.0, e.1)
  {
    var all := entries + [e];
    assert all[..|all| - 1] == entries && Last(all) == e;
  }

  /** The dict holds exactly the keys stored into it. */
  lemma {:induction false} FoldKeys(entries: seq<(int, Screen)>)
    ensures forall k :: k in Fold(entries).screens <==> exists i :: 0 <= i < |entries| && entries[i].0 == k
  {
    if entries != [] {
      var n := |entries| - 1;
      var prefix := entries[..n];
      FoldKeys(prefix);
      var now, before := Fold(entries).screens, Fold(prefix).screens;
      assert now == before[entries[n].0 := entries[n].1];
      forall k | k != entries[n].0
        ensures k in now <==> exists i :: 0 <= i < |entries| && entries[i].0 == k
      {
        if k in before {
          var i :| 0 <= i < n && prefix[i].0 == k;
          assert entries[i] == prefix[i];
        }
        if exists i :: 0 <= i < |entries| && entries[i].0 == k {
          var i :| 0 <= i < |entries| && entries[i].0 == k;
          assert prefix[i] == entries[i];
        }
      }
    }
  }

  /** The entry at `i` is the first one stored under its key. */
  ghost predicate FirstStored(entries: seq<(int, Screen)>, i: int)
  {
    0 <= i < |entries| && forall i' :: 0 <= i' < i ==> entries[i'].0 != entries[i].0
  }

  /**
   * The dict orders its keys by first insertion: of two keys, the one first
   * stored earlier comes first in `values()`.
   */
  lemma {:induction false} FoldOrder(entries: seq<(int, Screen)>, i: int, j: int)
    requires i < j && FirstStored(entries, i) && FirstStored(entries, j)
    ensures exists p, q ::
              0 <= p < q < |Fold(entries).order| &&
              Fold(entries).order[p] == entries[i].0 && Fold(entries).order[q] == entries[j].0
  {
    var n := |entries| - 1;
    var prefix := entries[..n];
    var before := Fold(prefix);
    var order := Fold(entries).order;
    assert forall i' :: 0 <= i' < n ==> prefix[i'] == entries[i'];
    if j < n {
      assert FirstStored(prefix, i) && FirstStored(prefix, j);
      FoldOrder(prefix, i, j);
      var p, q :| 0 <= p < q < |before.order| && before.order[p] == prefix[i].0 && before.order[q] == prefix[j].0;
      assert before.order <= order;
      assert order[p] == entries[i].0 && order[q] == entries[j].0;
    } else {
      FoldKeys(prefix);
      assert entries[i].0 in before.screens;
      assert entries[n].0 !in before.screens;
      assert order == before.order + [entries[n].0];
      var p :| 0 <= p < |before.order| && before.order[p] == entries[i].0;
      assert order[p] == entries[i].0 && order[|before.order|] == entries[j].0;
    }
  }

  /** The record stored last under a key is the one the dict keeps. */
  lemma {:induction false} FoldLastWins(entries: seq<(int, Screen)>, i: nat)
    requires i < |entries|
    requires forall j :: i < j < |entries| ==> entries[j].0 != entries[i].0
    ensures entries[i].0 in Fold(entries).screens && Fold(entries).screens[entries[i].0] == entries[i].1
  {
    var n := |entries| - 1;
    var prefix := entries[..n];
    if i < n {
      assert prefix[i] == entries[i];
      assert forall j :: i < j < n ==> prefix[j] == entries[j];
      FoldLastWins(prefix, i);
    }
  }

  /** A stored record is always one of the records stored. */
  lemma {:induction false} FoldValuesStored(entries: seq<(int, Screen)>, k: int)
    requires k in Fold(entries).screens
    ensures exists i :: 0 <= i < |entries| && entries[i] == (k, Fold(entries).screens[k])
  {
    var n := |entries| - 1;
    var prefix := entries[..n];
    if k != entries[n].0 {
      FoldValuesStored(prefix, k);
      var i :| 0 <= i < n && prefix[i] == (k, Fold(prefix).screens[k]);
      assert entries[i] == prefix[i];
    }
  }

  /**
   * The dict of `parse_screens`: the sections are read in order, and each
   * record is stored under its key.
   */
  function ParsedScreens(config: ConfigFile, sections: seq<string>): (r: Result<Table, Fault>)
  {
    var entries :- ParseSections(config, sections);
    Ok(Fold(entries))
  }

  /** The records of the sections, in order; the first section that fails raises. */
  function ParseSections(config: ConfigFile, sections: seq<string>): Result<seq<(int, Screen)>, Fault>
  {
    ParseAll(SectionParser(config), sections)
  }

  function SectionParser(config: ConfigFile): string -> Result<(int, Screen), Fault>
  {
    section => ParseScreenSection(config, section)
  }

  /**
   * When every section parses, the dict holds exactly the sections' keys,
   * each with the record of the last section with that key, and every record
   * has a checked id and resolution and no position yet.
   */
  lemma ParsedScreensTable(config: ConfigFile, sections: seq<string>)
    requires ParsedScreens(config, sections).Ok?
    ensures var t, entries := ParsedScreens(config, sections).value, ParseSections(config, sections).value;
      && (forall k :: k in t.screens <==> exists i :: 0 <= i < |sections| && entries[i].0 == k)
      && (forall i :: 0 <= i < |sections| && (forall j :: i < j < |sections| ==> entries[j].0 != entries[i].0) ==>
            t.screens[entries[i].0] == entries[i].1)
      && (forall k :: k in t.screens ==>
            t.screens[k].position == None && IsScreenId(t.screens[k].id) && IsResolution(t.screens[k].resolution))
  {
    var entries := ParseSections(config, sections).value;
    var t := Fold(entries);
    FoldKeys(entries);
    forall i | 0 <= i < |sections| && (forall j :: i < j < |sections| ==> entries[j].0 != entries[i].0)
      ensures t.screens[entries[i].0] == entries[i].1
    {
      FoldLastWins(entries, i);
    }
    forall k | k in t.screens
      ensures t.screens[k].position == None && IsScreenId(t.screens[k].id) && IsResolution(t.screens[k].resolution)
    {
      FoldValuesStored(entries, k);
    }
  }

  /** The registry object that `parse_screens` fills and the position pass updates. */
  class ScreenRegistry {
    var order: seq<int>
    var screens: map<int, Screen>

    function Contents(): Table
      reads this
    {
      Table(order, screens)
    }

    ghost predicate Valid()
      reads this
    {
      WellFormed(Contents())
    }

    /** `dict()`. */
    constructor ()
      ensures Valid() && Contents() == Empty
    {
      order := [];
      screens := map[];
    }

    /** `screens[key] = screen`. */
    method Put(key: int, s: Screen)
      requires Valid()
      modifies this
      ensures Valid() && Contents() == Insert(old(Contents()), key, s)
    {
      if key !in screens {
        order := order + [key];
      }
      screens := screens[key := s];
    }

    /** `screens[key]['position'] = p`: that record's position changes and nothing else. */
    method SetPosition(key: int, p: Pos)
      requires Valid() && key in screens
      modifies this
      ensures Valid() && Contents() == Insert(old(Contents()), key, old(screens[key]).(position := Some(p)))
    {
      screens := screens[key := screens[key].(position := Some(p))];
    }
  }

  /** `parse_screens(config, screen_sections)`. */
  method ParseScreens(config: ConfigFile, sections: seq<string>) returns (r: Result<ScreenRegistry, Fault>)
    ensures ParsedScreens(config, sections).Err? ==> r == Err(ParsedScreens(config, sections).error)
    ensures ParsedScreens(config, sections).Ok? ==>
      r.Ok? && fresh(r.value) && r.value.Valid() && r.value.Contents() == ParsedScreens(config, sections).value
  {
    var parse := SectionParser(config);
    var registry := new ScreenRegistry();
    var i := 0;
    while i < |sections|
      invariant 0 <= i <= |sections|
      invariant ParseAll(parse, sections[..i]).Ok?
      invariant registry.Valid() && registry.Contents() == Fold(ParseAll(parse, sections[..i]).value)
    {
      var entry := parse(sections[i]);
      if entry.Err? {
        ParseAllFirstError(parse, sections, i);
        return Err(entry.error);
      }
      ghost var done := ParseAll(parse, sections[..i]).value;
      ParseAllStep(parse, sections, i);
      FoldSnoc(done, entry.value);
      registry.Put(entry.value.0, entry.value.1);
      i := i + 1;
    }
    assert sections[..i] == sections;
    return Ok(registry);
  }
}
