# nvx — a verified model of the layout-to-metamode core

`nvx` configures a multi-monitor NVIDIA setup. It reads the screens and the layout from an INI file (`~/.config/nvx/nvx.conf`). The layout is a matrix of screen indices. It comes either from the `Layout` section's `Row_<n>` options or from the command line, optionally wrapped every `wrap` screens. From these, nvx:

- computes the absolute pixel offset of every screen. Screens in a row go left to right, and rows go top to bottom; each row is as tall as its tallest screen.
- builds the `CurrentMetaMode` string and the `nvidia-settings --assign …` command that carries it.

This project models that core of `src/nvx/main.py` in Dafny and proves what each step promises.

| file | module | models |
|---|---|---|
| `wrappers.dfy` | `Wrappers` | `Option`, `Result` (with `:-`), `Outcome` |
| `text.dfy` | `Text` | covers the following: the digit and word character classes; `str.split` on one character, and `sep.join`; `str(n)`, and Python's `int()` on a string |
| `config.dfy` | `Config` | the parsed INI file as ordered sections of ordered options, plus `sections()`, `options()`, `get()` and `int()`. `Fault` lists every exception the core raises. |
| `layout.dfy` | `Layout` | `parse_layout_matrix`, and the override and wrap branch of `parse_user_config` |
| `screens.dfy` | `Screens` | the checks in `parse_screens` and the record they produce. The `screens` dict is an ordered table, and `ScreenRegistry` is the class whose fields the loops update in place. |
| `positions.dfy` | `Positions` | `compute_screen_positions`, as a closed-form placement and as the in-place double loop proved equal to it |
| `settings.dfy` | `Settings` | `screen_settings`, the DUMMY filter, the `", "` join and the command string. It also has a decoder used to prove that the mode string reads back. |
| `nvx.dfy` | `Nvx` | the screen-section filter, `parse_user_config`, and the guard and steps of `main` |

Behaviour follows the code:
- **Errors.** Each error the code raises is a `Fault` value returned on the error path: `assert`, `RuntimeError`, `ValueError` from `int()`, `IndexError` from an empty matrix, `ValueError` from `max()` of an empty row, and `NoSectionError`/`NoOptionError`.
- **Order of checks.** Errors are checked in the same order as the code.
- **Row numbers.** Row and screen numbers come from `int()` of the text after the last `_`.
- **Row sorting.** Rows are sorted stably by that number.
- **Re-assigned keys.** A dict key assigned again keeps its place.
- **Repeated indices.** An index that appears twice in the layout keeps the position of its last occurrence.
- **DUMMY filter.** The test `re.match(r"DUMMY-\d", id)` is anchored only at the start.
- **Wrap guard.** `wrap == 0` is falsy in the guard of `main`.

## Model

| member | source | states |
|---|---|---|
| Text.NatToDecimal | src/nvx/main.py:107 | the rendering of a natural number is a non-empty digit string that starts with `0` exactly when the number is 0 |
| Text.NatToDecimalValue | src/nvx/main.py:107 | the digits rendered for `n` have the value `n` |
| Text.IntToDecimal | src/nvx/main.py:107 | an integer is rendered non-empty, with a leading `-` exactly when it is negative |
| Text.IntToDecimalExcludes | src/nvx/main.py:107 | a rendered integer contains no character other than digits and `-` |
| Text.IntToDecimalRoundTrip | src/nvx/main.py:68 | `int(str(n)) == n` for every integer the interpreter's digit limit lets it render (see Left out) |
| Text.Split | src/nvx/main.py:48 | `str.split(c)` returns at least one piece, no piece contains `c`, and joining the pieces with `c` gives back the string |
| Text.SplitJoin | src/nvx/main.py:48 | splitting undoes joining when no piece contains the separator |
| Text.ParseInt | src/nvx/main.py:48 | definition of `int()` on a string: strip whitespace, one optional sign, digit groups; its properties are stated by ParseIntOfDigits, ParseIntOfPlus, ParseIntOfNegated, ParseIntIgnoresSpace, ParseIntOfBlank, ParseIntWithSeparator and IntToDecimalRoundTrip |
| Text.ParseIntOfDigits | src/nvx/main.py:48 | `int()` of plain digits is their value, and among plain digit strings only the empty one raises (the interpreter's digit limit aside, see Left out) |
| Text.ParseIntOfPlus | src/nvx/main.py:68 | `int("+" + digits)` is the value of the digits |
| Text.ParseIntIgnoresSpace | src/nvx/main.py:68 | `int()` ignores ASCII whitespace (space, tab, line feed, vertical tab, form feed, carriage return) before and after the literal: padding a literal that neither starts nor ends with such whitespace does not change what it reads as |
| Text.ParseIntOfBlank | src/nvx/main.py:48 | `int()` of the empty text, or of text made only of that ASCII whitespace, raises |
| Text.ParseIntRefusesSeparator | src/nvx/main.py:68 | `int()` does not strip the separator U+001C: a literal led by it raises |
| Text.ParseIntWithSeparator | src/nvx/main.py:68 | `int()` skips one underscore between two digit groups: `int("1_000") == 1000` |
| Text.UnsignedWithSeparator | src/nvx/main.py:68 | on the sign-free body (ParseUnsigned), one underscore between two digit groups is skipped |
| Text.DropUnderscoresAppend | src/nvx/main.py:68 | dropping the underscores of two texts one after the other is dropping them from each |
| Text.ParseIntOfNegated | src/nvx/main.py:68 | `int("-" + digits)` is the negated value of the digits |
| Config.SectionNames | src/nvx/main.py:75 | `config.sections()` lists the section names in file order |
| Config.Options | src/nvx/main.py:44 | `config.options(s)` fails with NoSection exactly when there is no section `s`, and otherwise gives the options of a section named `s` |
| Config.Lookup | src/nvx/main.py:46 | an option is found exactly when the section has one of that name, and the value found belongs to that option |
| Config.Get | src/nvx/main.py:60 | `config.get` raises NoSection for a missing section; in a present section it finds a value exactly when the section has that option, the value is one stored under that option, and a missing option raises NoOption(section, option) |
| Layout.IsRowOption | src/nvx/main.py:45 | definition of `re.match(r'^Row_\d+$', option)`: `Row_` followed by at least one digit and nothing else; stated by RowNameParts and RowOptions |
| Layout.RowNameParts | src/nvx/main.py:49 | a `Row_<digits>` name splits at `_` into `Row` and the digits |
| Layout.RowNumberIsSuffixInt | src/nvx/main.py:49 | `int(row.split('_')[-1])` is the row number of a `Row_<digits>` option |
| Layout.RowOptions | src/nvx/main.py:45 | keeps exactly the options named `Row_` followed by digits, and nothing else |
| Layout.RowOptionsAppend | src/nvx/main.py:45 | the filter keeps file order: the row options of two runs of options are those of the first run followed by those of the second |
| Layout.IsRowText | src/nvx/main.py:47 | definition of `re.match(r'^[\d ]+$', row)`: non-empty, only digits and spaces; stated by RowTextPieces and JoinedDecimalsAreRowText |
| Layout.RowCells | src/nvx/main.py:48 | definition of `list(map(int, row.split(' ')))`; stated by RowCellsOfRowText and RowTextRoundTrip |
| Layout.ParseInts | src/nvx/main.py:48 | `map(int, pieces)` succeeds exactly when every piece is an integer, with one value per piece |
| Layout.RowTextPieces | src/nvx/main.py:47-48 | every piece of a row that passed the `[\d ]+` check is made of digits |
| Layout.ParseIntsOfDigits | src/nvx/main.py:48 | digit pieces parse exactly when none is empty; the failure is `int('')`; the values are the digits' values |
| Layout.RowCellsOfRowText | src/nvx/main.py:47-48 | an accepted row text parses exactly when it has no empty piece, which a double, leading or trailing space would create, and each cell is the value of its piece |
| Layout.JoinedDecimalsAreRowText | src/nvx/main.py:47 | numbers joined by single spaces pass the row check |
| Layout.RowTextRoundTrip | src/nvx/main.py:47-48 | a row written as numbers joined by spaces is accepted and reads back as the same numbers |
| Layout.NumberRows | src/nvx/main.py:48-50 | pairing each row's number with its cells succeeds exactly when every row parses; entry `i` is row `i`'s number and cells |
| Layout.InsertByNumber | src/nvx/main.py:51 | insertion adds exactly the one row (a permutation) |
| Layout.InsertKeepsSorted | src/nvx/main.py:51 | insertion keeps rows ordered by number |
| Layout.SortByNumber | src/nvx/main.py:51 | the sort result is a permutation of its input, ordered by row number |
| Layout.InsertKeepsGroups | src/nvx/main.py:51 | insertion keeps the relative order of rows with equal numbers |
| Layout.SortByNumberIsStable | src/nvx/main.py:51 | the sort is stable: for each number, its rows keep their file order |
| Layout.SortedGroupsDetermine | src/nvx/main.py:51 | two sorted sequences with the same rows per number, in the same order, are equal |
| Layout.StableSortIsUnique | src/nvx/main.py:51 | every stable sort by number is the one SortByNumber computes |
| Layout.CellsOf | src/nvx/main.py:52 | `list(zip(*matrix))[1]` keeps the cells of each row, in order |
| Layout.ParseLayoutMatrix | src/nvx/main.py:43-44 | without a `Layout` section, `config.options('Layout')` raises NoSection |
| Layout.LayoutMatrixErrors | src/nvx/main.py:47-52 | covers each failure mode: a non-row text raises BadLayoutRow; no row options raises NoLayoutRows (the `IndexError` at line 52); otherwise the matrix succeeds exactly when every row parses, and the only other failure is `int('')` |
| Layout.NumberRowsFirstError | src/nvx/main.py:48 | among row-checked rows, the failure of `int` is on an empty piece |
| Layout.NumberedCellsNonEmpty | src/nvx/main.py:47-48 | every row that passed the row check and parsed has at least one cell |
| Layout.LayoutMatrixOrder | src/nvx/main.py:45-52 | a successful matrix is non-empty with no empty row, and it is the cells of a stable sort by row number of the `Row_<n>` options |
| Layout.Chunks | src/nvx/main.py:79 | definition of `[override[i:i + wrap] for i in range(0, len(override), wrap)]`; stated by ChunksFlatten, ChunksSizes, ChunksCount, ChunkAt and ChunkFrom |
| Layout.ChunksFlatten | src/nvx/main.py:79 | the wrapped rows concatenate back to the override |
| Layout.ChunksSizes | src/nvx/main.py:79 | every wrapped row has 1 to `wrap` screens, and every row but the last exactly `wrap` |
| Layout.ChunksCons | src/nvx/main.py:79 | with more than one row, the override is longer than `wrap` and the rows after the first are the wrapping of the rest |
| Layout.ChunksCount | src/nvx/main.py:79 | there are `ceil(len / wrap)` rows |
| Layout.ChunkAt | src/nvx/main.py:79 | row `i` is `override[i*wrap : i*wrap + wrap]` |
| Layout.ChunkFrom | src/nvx/main.py:79 | row `i` is the slice starting at `i*wrap`, and that start lies inside the override |
| Layout.SelectLayout | src/nvx/main.py:76-85 | picks the layout source: a non-empty override fails exactly when `wrap` is given and not positive (WrapNotPositive); otherwise the override is one row without a wrap, or wrapped rows that concatenate back to it; an empty override falls back to the Layout section, or raises NoLayoutSection |
| Layout.SelectedRowsNonEmpty | src/nvx/main.py:76-85 | no selected layout has an empty row |
| Screens.IsScreenSection | src/nvx/main.py:87 | definition of `re.match(r'^Screen_\d+$', section)`; stated by ScreenKeyIsSuffixInt and Nvx.ScreenSections |
| Screens.ScreenKeyIsSuffixInt | src/nvx/main.py:59 | `int(section.split('_')[-1])` is the digits' value for a `Screen_<digits>` section |
| Screens.IsScreenId | src/nvx/main.py:61 | definition of `re.match(r'^\w+-\d+$', id)`: one `-` between a non-empty word-character part and a non-empty digit part; stated by ScreenIdOfParts, ScreenIdParts and ScreenIdExcludes |
| Screens.ScreenIdOfParts | src/nvx/main.py:61 | word characters, `-`, digits is an accepted id |
| Screens.ScreenIdParts | src/nvx/main.py:61 | an accepted id splits at `-` into a word-character part and a digit part |
| Screens.ScreenIdExcludes | src/nvx/main.py:61 | an accepted id contains no character other than word characters and `-` |
| Screens.IsResolution | src/nvx/main.py:65 | definition of `re.match(r'^\d+x\d+$', resolution)`: one `x` between two non-empty digit parts; stated by ResolutionExcludes, ResolutionInts and ResolutionRoundTrip |
| Screens.ResolutionExcludes | src/nvx/main.py:65 | an accepted resolution contains only digits and `x` |
| Screens.ResolutionInts | src/nvx/main.py:65-67 | an accepted resolution splits at `x` into two digit strings, which `int()` reads as the width and the height |
| Screens.ResolutionRoundTrip | src/nvx/main.py:65-67 | `<w>x<h>` is accepted and yields width `w` and height `h` |
| Screens.ParseScreenSection | src/nvx/main.py:59-68 | a parsed record has: a checked id and resolution; the resolution's width and height, and no position; its key is `int` of the name's suffix; every field is the section's value |
| Screens.ScreenSectionChecks | src/nvx/main.py:61-68 | covers the section checks in order once the earlier reads succeed: an id that fails the pattern raises BadScreenId; a resolution that fails raises BadResolution; a refresh rate `int()` refuses raises NotAnInteger on that text |
| Screens.ScreenSectionOfFields | src/nvx/main.py:59-68 | the converse of ParseScreenSection: when the key reads as an integer, the id and resolution pass their checks, the name is present, and the refresh rate text is anything `int()` reads (padded with space, tab, line feed, vertical tab, form feed or carriage return, signed, with leading zeros or underscores), the section parses to exactly the record they describe |
| Screens.SectionRoundTrip | src/nvx/main.py:59-68 | a checked record written out as a `Screen_<key>` section parses back to the same key and record |
| Screens.Insert | src/nvx/main.py:69 | `screens[key] = screen` keeps the dict well formed |
| Screens.Values | src/nvx/main.py:112 | `screens.values()` lists, in dict order, the record of each key |
| Screens.InsertValues | src/nvx/main.py:69 | assignment stores the record and leaves other keys alone; a new key goes last in `values()`, and a re-assigned key keeps its place |
| Config.ParseAll | src/nvx/main.py:57-69 | the loop succeeds exactly when every section parses, with each section's record at its index |
| Config.ParseAllFirstError | src/nvx/main.py:57-69 | the loop raises the error of the first section that fails |
| Config.ParseAllStep | src/nvx/main.py:57-69 | one more successful iteration appends that section's record |
| Screens.Fold | src/nvx/main.py:56-69 | storing the records in order yields a well-formed dict |
| Screens.FoldSnoc | src/nvx/main.py:69 | storing one more record is one more assignment into the dict |
| Screens.FoldKeys | src/nvx/main.py:69 | the dict holds exactly the keys stored into it |
| Screens.FoldLastWins | src/nvx/main.py:69 | the last record stored under a key is the one kept |
| Screens.FoldValuesStored | src/nvx/main.py:69 | every kept record is one that was stored under that key |
| Screens.FoldOrder | src/nvx/main.py:56-69 | the dict orders its keys by first insertion: of two keys, the one first stored earlier comes first in `values()` |
| Screens.ParsedScreens | src/nvx/main.py:55-70 | definition of the dict `parse_screens` returns: the sections read in order, then stored in order; stated by ParsedScreensTable, FoldOrder and Screens.ParseScreens |
| Screens.ParsedScreensTable | src/nvx/main.py:55-70 | after `parse_screens`, each section's key holds the record of the last section with that key; every record has a checked id and resolution and no position |
| Screens.ScreenRegistry.constructor | src/nvx/main.py:56 | `dict()` is the empty, well-formed registry |
| Screens.ScreenRegistry.Put | src/nvx/main.py:69 | `screens[key] = screen` updates the registry as Insert does |
| Screens.ScreenRegistry.SetPosition | src/nvx/main.py:101 | `screen['position'] = offset` changes only that record's position |
| Screens.ParseScreens | src/nvx/main.py:55-70 | the loop raises what ParsedScreens raises, or returns a fresh registry holding exactly ParsedScreens's dict |
| Positions.RowPlacement | src/nvx/main.py:97-102 | definition of the inner loop for one row as a value: the position each index receives last, or ScreenNotFound; stated by RowPlacementOk, RowPlacementErr and RowPlacementAt |
| Positions.Placement | src/nvx/main.py:94-103 | definition of the whole pass as a value; stated by PlacementOk, PlacementErr, PlacementAt and FirstAtOrigin, and by ComputeScreenPositions, which the double loop is proved equal to |
| Positions.RowHeightIsMax | src/nvx/main.py:103 | the row height is at least every screen's height in the row and equals one of them: the `max` |
| Positions.WithPositions | src/nvx/main.py:101 | setting positions keeps the registry well formed |
| Positions.RowPlacementOk | src/nvx/main.py:97-102 | a row is placed exactly when all its indices have records, and it places exactly those indices |
| Positions.RowPlacementErr | src/nvx/main.py:97-99 | a failed row raises ScreenNotFound on its first index, left to right, that has no record |
| Positions.RowPlacementAt | src/nvx/main.py:97-102 | a screen not repeated later in its row has x the sum of the widths before it and y the row's y; a repeated index keeps the position of its last occurrence |
| Positions.PlacementOk | src/nvx/main.py:96-103 | the pass succeeds exactly when no row is empty and every index has a record; the positioned screens are exactly the indices in the layout |
| Positions.PlacementErr | src/nvx/main.py:96-103 | the failure is at the first place in reading order where one occurs: ScreenNotFound on the first index with no record, with every row before it non-empty and placeable, or EmptyRow for the first empty row, with every row before it placeable |
| Positions.PlacementAt | src/nvx/main.py:95-103 | a screen at row `i`, column `j`, not repeated later, sits at (sum of the widths before it in its row, sum of the heights of the rows above) |
| Positions.FirstAtOrigin | src/nvx/main.py:95 | the first screen of the first row, if not repeated later, sits at (0, 0) |
| Positions.RowSumsDependOnSizes | src/nvx/main.py:102-103 | row widths and heights depend only on the records' sizes |
| Positions.SumHeightsDependOnSizes | src/nvx/main.py:103 | the y of each row depends only on sizes |
| Positions.RowPlacementDependsOnSizes | src/nvx/main.py:97-102 | placing a row depends only on which keys exist and their sizes, not on ids, so DUMMY screens count like any other |
| Positions.PlacementDependsOnSizes | src/nvx/main.py:94-103 | the whole placement depends only on keys and sizes |
| Positions.WithPositionsKeepsRecords | src/nvx/main.py:101 | positioning keeps keys, sizes and order, and changes only the positions of placed screens |
| Positions.PlaceOne | src/nvx/main.py:100-101 | giving one more screen its position is storing the positioned record |
| Positions.RowErrPersists | src/nvx/main.py:98-99 | once a row prefix raises, the row raises the same error |
| Positions.PlacementErrPersists | src/nvx/main.py:98-99 | once a prefix of the layout raises, the layout raises the same error |
| Positions.RowStep | src/nvx/main.py:97-102 | one inner iteration extends the row placement by the current screen and advances x by its width |
| Positions.PlaceRow | src/nvx/main.py:97-102 | the inner loop gives the row's screens the positions RowPlacement computes, on top of those already written, or raises the ScreenNotFound that RowPlacement names; keys, sizes and order are kept |
| Positions.ComputeScreenPositions | src/nvx/main.py:94-103 | the double loop leaves exactly WithPositions(old registry, Placement(layout)). When Placement fails it raises that same error and keeps keys, sizes and order. |
| Settings.IsDummy | src/nvx/main.py:113 | definition of `re.match(r"DUMMY-\d", id)`, anchored only at the start; stated by DummyDecidedByPrefix and DummyOfDigit |
| Settings.ScreenSettings | src/nvx/main.py:106-107 | definition of the `screen_settings` f-string; stated by EntryIsWords, EntryRoundTrip and EntryHasNoComma |
| Settings.MetaMode | src/nvx/main.py:111-113 | definition of the `", "` join of the settings of the positioned non-DUMMY screens; stated by MetaModeRoundTrip |
| Settings.Command | src/nvx/main.py:114 | definition of the command text; stated by CommandRoundTrip |
| Settings.DummyDecidedByPrefix | src/nvx/main.py:113 | only the first seven characters of an id decide the DUMMY test |
| Settings.DummyOfDigit | src/nvx/main.py:113 | `DUMMY-` and a digit, followed by anything, is a DUMMY id |
| Settings.Applied | src/nvx/main.py:112-113 | the listed screens are exactly the positioned non-DUMMY screens of the dict, and every listed one has a position |
| Settings.AppliedAppend | src/nvx/main.py:112-113 | the filter keeps order: filtering two runs is filtering each |
| Settings.Entries | src/nvx/main.py:111-112 | one entry per listed screen; entry `i` is the `screen_settings` of screen `i` |
| Settings.CommandRoundTrip | src/nvx/main.py:114 | the command text carries exactly the mode string inside `CurrentMetaMode="…"` |
| Settings.EntryIsWords | src/nvx/main.py:107 | an entry is four space-free words: `<id>:`, `<resolution>_<rate>`, `+<x>+<y>`, and the pipeline option |
| Settings.WordsJoin | src/nvx/main.py:107 | the four words joined by spaces are the entry |
| Settings.ModeWordParts | src/nvx/main.py:107 | `<resolution>_<rate>` splits at `_` into resolution and rate |
| Settings.OffsetWordParts | src/nvx/main.py:107 | `+<x>+<y>` splits at `+` into an empty piece, x and y |
| Settings.EntryRoundTrip | src/nvx/main.py:107 | the entry of a checked screen reads back as its id, resolution, rate, x and y |
| Settings.JoinSpaced | src/nvx/main.py:111 | joining with `", "` is joining with `,` after a space is put before every entry but the first |
| Settings.JoinFirstSpaced | src/nvx/main.py:111 | the space before the first spaced entry is the space before their join |
| Settings.ModeRoundTrip | src/nvx/main.py:111 | non-empty comma-free entries joined by `", "` split back into the same entries |
| Settings.EntryHasNoComma | src/nvx/main.py:107 | an entry of a checked screen is non-empty and has no comma |
| Settings.MetaModeRoundTrip | src/nvx/main.py:110-113 | the mode string splits into one entry per listed screen, in dict order, each reading back as that screen's settings |
| Nvx.ScreenSections | src/nvx/main.py:87 | keeps exactly the `Screen_<digits>` section names |
| Nvx.ScreenSectionsAppend | src/nvx/main.py:87 | the filter keeps file order |
| Nvx.NoScreenSectionsAmong | src/nvx/main.py:87-88 | with no `Screen_<digits>` name the filter is empty |
| Nvx.UserConfig | src/nvx/main.py:73-91 | a successful `parse_user_config` yields a well-formed screens dict |
| Nvx.ParseUserConfig | src/nvx/main.py:73-91 | the method raises what UserConfig raises, or returns UserConfig's layout and a fresh registry holding its dict |
| Nvx.Run | src/nvx/main.py:131-135 | the in-place run (guard, parse, position pass, command) gives exactly Invocation's result |
| Nvx.WrapWithoutOverride | src/nvx/main.py:131 | definition of the guard `args.wrap and len(args.layout) == 0`; stated by ZeroWrapIgnored and WrapNeedsLayout |
| Nvx.Invocation | src/nvx/main.py:131-135 | definition of `main` as a value; stated by Run (the in-place run equals it), RunListsPlacedScreens, PositionedIffInLayout, OneRowWithoutWrap and NoScreensRaises |
| Nvx.ZeroWrapIgnored | src/nvx/main.py:131 | with no layout arguments, `--wrap 0` behaves as no wrap |
| Nvx.WrapNeedsLayout | src/nvx/main.py:131-132 | a non-zero wrap without layout arguments raises WrapWithoutLayout |
| Nvx.NoScreensRaises | src/nvx/main.py:87-89 | once a layout is chosen, a file without screen sections raises NoScreenSections |
| Nvx.RunListsPlacedScreens | src/nvx/main.py:110-114 | a successful run's command carries a mode string: it holds exactly one entry per positioned non-DUMMY screen, in dict order; each entry reads back as that screen's id, resolution, rate and position |
| Nvx.PositionedIffInLayout | src/nvx/main.py:94-103 | after a successful run, a screen has a position exactly when the layout names it |
| Nvx.OneRowWithoutWrap | src/nvx/main.py:81 | layout arguments without a wrap form one row: argument `j`, if no later argument repeats it, sits at (sum of the widths before it, 0); a repeated argument takes the position of its last occurrence |

## Left out

- Reading `~/.config/nvx/nvx.conf` and creating the default one are not modelled (`get_user_config` and `init_config`). Neither is the root `main.py`. These are file system and process exit. The parsed file is a parameter of the model.
- INI syntax and `configparser` itself are not modelled: interpolation, the `DEFAULT` section, duplicate sections or options, and line continuation. The file is an ordered list of sections of ordered options. A lookup takes the first match.
- `argparse` is not modelled: turning `argv` into integers. The layout arguments and the wrap are parameters; a missing `--wrap` is `None`.
- Running the command is not modelled: `shlex.split`, `subprocess.check_output` and everything printed. The model ends at the command text.
- Character classes are not Unicode. `\w` and `\d` are the ASCII ones. `int()` strips the ASCII whitespace space and tab through carriage return (and not U+001C to U+001F); the non-ASCII whitespace it also strips and the non-ASCII decimal digits it also reads are not modelled.
- Python's limit on the number of digits in an int/str conversion (`sys.get_int_max_str_digits`, 4300 by default) is not modelled: `int()` of a longer digit string and `str()` or an f-string of a larger integer raise ValueError in the interpreter, and read or render normally in the model.
- Text.ParseIntOfDigits: states that plain digits read as their value whatever their length; above 4300 digits `int()` raises instead, because of the digit limit above.
- Text.IntToDecimalRoundTrip: states the round trip for every integer; an integer of more than 4300 digits cannot be rendered by `str()` in the interpreter, because of the digit limit above.
- The `$` of a regex also matches before a final newline. This is left out: the model requires the match to end at the end of the text.
- Screen records are values in a map inside the registry, not shared dict objects. No other reference to them exists in the core, so this loses no aliasing. The record holds exactly the keys the core writes (id, name, resolution, width, height, refresh rate and the optional position); of these, `name` is the one the core never reads.
- `python -O`, which disables the `assert` statements, is not modelled. Every check is modelled as raising.
- Positions.ComputeScreenPositions: when the pass raises part way, it states only what is unchanged (keys, sizes, order). It does not state which screens already received a position before the raise.
- Layout.ParseLayoutMatrix: its own contract states only the missing-section case. Its other outcomes are stated by Layout.LayoutMatrixErrors and Layout.LayoutMatrixOrder.
- Nvx.RunListsPlacedScreens: reads back the id, resolution, rate and position of each entry. The screen name is not part of an entry.
- Exception messages are not modelled; each raise is a `Fault` value.
