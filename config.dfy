/**
 * The user configuration after the INI reader has parsed it: sections in
 * file order, each holding its options in file order, with option names kept
 * case-sensitive. Also the faults the tool raises, one per exception.
 */
module Config {
  import opened Wrappers
  import opened Text

  datatype Section = Section(name: string, options: seq<(string, string)>)

  type ConfigFile = seq<Section>

  /** Every exception the core raises; each is fatal. */
  datatype Fault =
    | BadLayoutRow                        // a Layout row holds something other than digits and spaces
    | NotAnInteger(text: string)          // `int()` refused this text
    | NoLayoutRows                        // the Layout section has no `Row_<n>` option
    | WrapNotPositive                     // an override was given with a wrap below 1
    | WrapWithoutLayout                   // a non-zero wrap was given without an override
    | NoLayoutSection                     // neither an override nor a Layout section
    | NoScreenSections                    // no `Screen_<n>` section
    | NoSection(section: string)          // the INI reader has no such section
    | NoOption(section: string, option: string)  // the section has no such option
    | BadScreenId(id: string)             // ScreenID is not word characters, `-`, digits
    | BadResolution(resolution: string)   // ScreenResolution is not digits `x` digits
    | ScreenNotFound(index: int)          // the layout names a screen that has no section
    | EmptyRow                            // the tallest screen of an empty row was asked for

  /** `config.sections()`. */
  function SectionNames(config: ConfigFile): (names: seq<string>)
    ensures |names| == |config|
    ensures forall i :: 0 <= i < |config| ==> names[i] == config[i].name
  {
    if config == [] then [] else [config[0].name] + SectionNames(config[1..])
  }

  /** `config.options(section)`: the options of the first section of that name. */
  function Options(config: ConfigFile, section: string): (r: Result<seq<(string, string)>, Fault>)
    ensures r.Err? <==> section !in SectionNames(config)
    ensures r.Err? ==> r.error == NoSection(section)
    ensures r.Ok? ==> exists i :: 0 <= i < |config| && config[i].name == section && config[i].options == r.value
  {
    if config == [] then Err(NoSection(section))
    else if config[0].name == section then Ok(config[0].options)
    else Options(config[1..], section)
  }

  /** The value of the first option of that name. */
  function Lookup(options: seq<(string, string)>, option: string): (r: Option<string>)
    ensures r.Some? <==> exists i :: 0 <= i < |options| && options[i].0 == option
    ensures r.Some? ==> (option, r.value) in options
  {
    if options == [] then None
    else if options[0].0 == option then Some(options[0].1)
    else Lookup(options[1..], option)
  }

  /** `config.get(section, option)`. */
  function Get(config: ConfigFile, section: string, option: string): (r: Result<string, Fault>)
    ensures section !in SectionNames(config) ==> r == Err(NoSection(section))
    ensures r.Ok? ==> exists i :: 0 <= i < |config| && config[i].name == section && (option, r.value) in config[i].options
    ensures Options(config, section).Ok? ==>
      (r.Ok? <==> exists i :: 0 <= i < |Options(config, section).value| && Options(config, section).value[i].0 == option)
    ensures Options(config, section).Ok? && r.Err? ==> r.error == NoOption(section, option)
  {
    var options :- Options(config, section);
    match Lookup(options, option)
    case None => Err(NoOption(section, option))
    case Some(v) => Ok(v)
  }

  /** `int(s)`, raising on text it refuses. */
  function IntOf(s: string): (r: Result<int, Fault>)
    ensures r.Ok? <==> ParseInt(s).Some?
    ensures r.Ok? ==> ParseInt(s) == Some(r.value)
    ensures r.Err? ==> r.error == NotAnInteger(s)
  {
    match ParseInt(s)
    case None => Err(NotAnInteger(s))
    case Some(v) => Ok(v)
  }

  /** `parse` applied to each item in order; the first item it refuses raises. */
  function ParseAll<T>(parse: string -> Result<T, Fault>, items: seq<string>): (r: Result<seq<T>, Fault>)
    ensures r.Ok? <==> forall i :: 0 <= i < |items| ==> parse(items[i]).Ok?
    ensures r.Ok? ==> |r.value| == |items|
    ensures r.Ok? ==> forall i :: 0 <= i < |items| ==> r.value[i] == parse(items[i]).value
    ensures r.Err? ==> exists i :: 0 <= i < |items| && parse(items[i]) == Err(r.error)
  {
    if items == [] then Ok([])
    else
      var prefix := items[..|items| - 1];
      assert forall i :: 0 <= i < |prefix| ==> prefix[i] == items[i];
      var done :- ParseAll(parse, prefix);
      var last :- parse(Last(items));
      Ok(done + [last])
  }

  /** The error of ParseAll is the error of the first item that fails. */
  lemma {:induction false} ParseAllFirstError<T>(parse: string -> Result<T, Fault>, items: seq<string>, i: nat)
    requires i < |items| && parse(items[i]).Err?
    requires ParseAll(parse, items[..i]).Ok?
    ensures ParseAll(parse, items) == Err(parse(items[i]).error)
    decreases |items|
  {
    var n := |items| - 1;
    var prefix := items[..n];
    if i < n {
      assert prefix[i] == items[i];
      assert prefix[..i] == items[..i];
      ParseAllFirstError(parse, prefix, i);
    } else {
      assert prefix == items[..i];
    }
  }

  /** One more item extends a successful prefix by its result. */
  lemma ParseAllStep<T>(parse: string -> Result<T, Fault>, items: seq<string>, i: nat)
    requires i < |items| && ParseAll(parse, items[..i]).Ok? && parse(items[i]).Ok?
    ensures ParseAll(parse, items[..i + 1]) == Ok(ParseAll(parse, items[..i]).value + [parse(items[i]).value])
  {
    var next := items[..i + 1];
    assert next[..i] == items[..i] && Last(next) == items[i];
  }
}
