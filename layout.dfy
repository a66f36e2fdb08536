/**
 * The layout matrix: rows of screen indices, top row first, each row left to
 * right. It comes either from the `Row_<n>` options of the Layout section,
 * ordered by `<n>`, or from a flat override list cut into rows of `wrap`.
 */
module Layout {
  import opened Wrappers
  import opened Text
  import opened Config

  type Matrix = seq<seq<int>>

  function Flatten(m: Matrix): seq<int>
  {
    if m == [] then [] else m[0] + Flatten(m[1..])
  }

  // ----- Layout section rows

  /** `re.match(r'^Row_\d+$', name)`. */
  predicate IsRowOption(name: string)
  {
    |name| > 4 && name[..4] == "Row_" && AllDigits(name[4..])
  }

  lemma RowNameParts(name: string)
    requires IsRowOption(name)
    ensures Split(name, '_') == ["Row", name[4..]]
  {
    var digits := name[4..];
    DigitsHaveNoUnderscore(digits);
    assert Join(["Row", digits], "_") == name;
    SplitJoin(["Row", digits], '_');
  }

  /** The number `<n>` of a row option `Row_<n>`. */
  function RowNumber(name: string): nat
    requires IsRowOption(name)
  {
    DigitsValue(name[4..])
  }

  /** RowNumber is what `int(name.split('_')[-1])` returns for a row option. */
  lemma RowNumberIsSuffixInt(name: string)
    requires IsRowOption(name)
    ensures ParseInt(Last(Split(name, '_'))) == Some(RowNumber(name))
  {
    RowNameParts(name);
    ParseIntOfDigits(name[4..]);
  }

  /** The `Row_<n>` options, in file order. */
  function RowOptions(options: seq<(string, string)>): (rows: seq<(string, string)>)
    ensures |rows| <= |options|
    ensures forall i :: 0 <= i < |rows| ==> IsRowOption(rows[i].0)
    ensures forall o :: o in options && IsRowOption(o.0) ==> o in rows
    ensures forall o :: o in rows ==> o in options
  {
    if options == [] then []
    else (if IsRowOption(options[0].0) then [options[0]] else []) + RowOptions(options[1..])
  }

  /** The filter keeps file order: the row options of two runs of options are those of each. */
  lemma {:induction false} RowOptionsAppend(a: seq<(string, string)>, b: seq<(string, string)>)
    ensures RowOptions(a + b) == RowOptions(a) + RowOptions(b)
  {
    if a == [] {
      assert a + b == b;
    } else {
      assert (a + b)[0] == a[0] && (a + b)[1..] == a[1..] + b;
      RowOptionsAppend(a[1..], b);
    }
  }

  /** `re.match(r'^[\d ]+$', value)`. */
  predicate IsRowText(v: string)
  {
    |v| > 0 && forall i :: 0 <= i < |v| ==> IsDigit(v[i]) || v[i] == ' '
  }

  /** `list(map(int, pieces))`: the first piece `int()` refuses raises. */
  function ParseInts(pieces: seq<string>): (r: Result<seq<int>, Fault>)
    ensures r.Ok? <==> forall i :: 0 <= i < |pieces| ==> ParseInt(pieces[i]).Some?
    ensures r.Ok? ==> |r.value| == |pieces|
    ensures r.Ok? ==> forall i :: 0 <= i < |pieces| ==> ParseInt(pieces[i]) == Some(r.value[i])
  {
    if pieces == [] then Ok([])
    else match ParseInt(pieces[0])
      case None => Err(NotAnInteger(pieces[0]))
      case Some(v) =>
        var rest :- ParseInts(pieces[1..]);
        Ok([v] + rest)
  }

  /** `list(map(int, value.split(' ')))`: the cells of one row. */
  function RowCells(v: string): Result<seq<int>, Fault>
  {
    ParseInts(Split(v, ' '))
  }

  /** The pieces of a value that passed the character check are strings of digits. */
  lemma RowTextPieces(v: string)
    requires IsRowText(v)
    ensures forall i :: 0 <= i < |Split(v, ' ')| ==> AllDigits(Split(v, ' ')[i])
  {
    var pieces := Split(v, ' ');
    forall i, k | 0 <= i < |pieces| && 0 <= k < |pieces[i]| ensures IsDigit(pieces[i][k]) {
      SplitPieceChars(v, ' ', i, k);
    }
  }

  /** No piece is empty: the value has no leading, trailing or doubled space. */
  predicate NoEmptyPiece(pieces: seq<string>)
  {
    forall i :: 0 <= i < |pieces| ==> pieces[i] != []
  }

  /** `int()` over strings of digits fails on the first empty one and otherwise reads each as its digits. */
  lemma {:induction false} ParseIntsOfDigits(pieces: seq<string>)
    requires forall i :: 0 <= i < |pieces| ==> AllDigits(pieces[i])
    ensures ParseInts(pieces).Ok? <==> NoEmptyPiece(pieces)
    ensures ParseInts(pieces).Err? ==> ParseInts(pieces).error == NotAnInteger("")
    ensures ParseInts(pieces).Ok? ==> forall i :: 0 <= i < |pieces| ==> ParseInts(pieces).value[i] == DigitsValue(pieces[i])
  {
    if pieces != [] {
      ParseIntOfDigits(pieces[0]);
      ParseIntsOfDigits(pieces[1..]);
      assert forall i :: 1 <= i < |pieces| ==> pieces[i] == pieces[1..][i - 1];
      if ParseInts(pieces).Ok? {
        var r, rest := ParseInts(pieces).value, ParseInts(pieces[1..]).value;
        assert r == [DigitsValue(pieces[0])] + rest;
        forall i | 0 <= i < |pieces| ensures r[i] == DigitsValue(pieces[i]) {
          if i > 0 { assert r[i] == rest[i - 1]; }
        }
      }
    }
  }

  /**
   * On a value that passed the character check, the conversion fails exactly
   * when a piece is empty (a leading, trailing or doubled space), and otherwise
   * reads every space-separated piece as its decimal value.
   */
  lemma RowCellsOfRowText(v: string)
    requires IsRowText(v)
    ensures RowCells(v).Ok? <==> NoEmptyPiece(Split(v, ' '))
    ensures RowCells(v).Err? ==> RowCells(v).error == NotAnInteger("")
    ensures RowCells(v).Ok? ==> |RowCells(v).value| == |Split(v, ' ')| > 0
    ensures RowCells(v).Ok? ==> forall i :: 0 <= i < |Split(v, ' ')| ==>
      AllDigits(Split(v, ' ')[i]) && RowCells(v).value[i] == DigitsValue(Split(v, ' ')[i])
  {
    var pieces := Split(v, ' ');
    RowTextPieces(v);
    ParseIntsOfDigits(pieces);
    assert RowCells(v) == ParseInts(pieces);
  }

  /** Space-separated decimals, as a user writes a row. */
  function FormatRow(cells: seq<nat>): string
  {
    Join(seq(|cells|, i requires 0 <= i < |cells| => NatToDecimal(cells[i])), " ")
  }

  lemma {:induction false} JoinedDecimalsAreRowText(parts: seq<string>)
    requires |parts| > 0
    requires forall i :: 0 <= i < |parts| ==> |parts[i]| > 0 && AllDigits(parts[i])
    ensures IsRowText(Join(parts, " "))
  {
    if |parts| > 1 {
      JoinedDecimalsAreRowText(parts[1..]);
      var tail := Join(parts[1..], " ");
      var s := parts[0] + " " + tail;
      assert s == Join(parts, " ");
      forall k | 0 <= k < |s| ensures IsDigit(s[k]) || s[k] == ' ' {
        if k < |parts[0]| {
          assert s[k] == parts[0][k];
        } else if k > |parts[0]| {
          assert s[k] == tail[k - |parts[0]| - 1];
        }
      }
    }
  }

  /** A row written as space-separated decimals reads back as the same cells. */
  lemma RowTextRoundTrip(cells: seq<nat>)
    requires |cells| > 0
    ensures IsRowText(FormatRow(cells))
    ensures RowCells(FormatRow(cells)) == Ok(cells)
  {
    var parts := seq(|cells|, i requires 0 <= i < |cells| => NatToDecimal(cells[i]));
    forall i | 0 <= i < |parts| ensures ' ' !in parts[i] && ParseInt(parts[i]) == Some(cells[i]) {
      NonNegativeRoundTrip(cells[i]);
      DigitsExclude(parts[i], ' ');
    }
    JoinedDecimalsAreRowText(parts);
    SplitJoin(parts, ' ');
    var r := ParseInts(parts);
    assert r.Ok?;
    assert r.value == cells;
  }

  datatype NumberedRow = NumberedRow(number: nat, cells: seq<int>)

  /**
   * Pairs each row option's number with its cells (`zip(row_numbers, layout)`);
   * the first row, in file order, whose conversion fails raises.
   */
  function NumberRows(rows: seq<(string, string)>): (r: Result<seq<NumberedRow>, Fault>)
    requires forall i :: 0 <= i < |rows| ==> IsRowOption(rows[i].0)
    ensures r.Ok? <==> forall i :: 0 <= i < |rows| ==> RowCells(rows[i].1).Ok?
    ensures r.Ok? ==> |r.value| == |rows|
    ensures r.Ok? ==> forall i :: 0 <= i < |rows| ==>
      r.value[i] == NumberedRow(RowNumber(rows[i].0), RowCells(rows[i].1).value)
  {
    var values := RowValues(rows);
    assert forall i :: 0 <= i < |rows| ==> CellsParser()(values[i]) == RowCells(rows[i].1);
    var cells :- ParseAll(CellsParser(), values);
    Ok(seq(|rows|, i requires 0 <= i < |rows| => NumberedRow(RowNumber(rows[i].0), cells[i])))
  }

  /** The values of the row options, in order. */
  function RowValues(rows: seq<(string, string)>): seq<string>
  {
    seq(|rows|, i requires 0 <= i < |rows| => rows[i].1)
  }

  function CellsParser(): string -> Result<seq<int>, Fault>
  {
    v => RowCells(v)
  }

  // ----- Stable sort by row number

  predicate SortedByNumber(rows: seq<NumberedRow>)
  {
    forall i, j :: 0 <= i < j < |rows| ==> rows[i].number <= rows[j].number
  }

  /** The rows numbered `n`, in their order. */
  function WithNumber(rows: seq<NumberedRow>, n: nat): seq<NumberedRow>
  {
    if rows == [] then [] else (if rows[0].number == n then [rows[0]] else []) + WithNumber(rows[1..], n)
  }

  /**
   * `sorted` is `rows` ordered by number, rows of equal number kept in their
   * original order: what a stable sort by number returns.
   */
  ghost predicate IsStableSortOf(sorted: seq<NumberedRow>, rows: seq<NumberedRow>)
  {
    SortedByNumber(sorted) && forall n: nat :: WithNumber(sorted, n) == WithNumber(rows, n)
  }

  function InsertByNumber(x: NumberedRow, sorted: seq<NumberedRow>): (r: seq<NumberedRow>)
    ensures multiset(r) == multiset(sorted) + multiset{x}
  {
    if sorted == [] || x.number <= sorted[0].number then [x] + sorted
    else
      assert sorted == [sorted[0]] + sorted[1..];
      [sorted[0]] + InsertByNumber(x, sorted[1..])
  }

  lemma {:induction false} InsertKeepsSorted(x: NumberedRow, sorted: seq<NumberedRow>)
    requires SortedByNumber(sorted)
    ensures SortedByNumber(InsertByNumber(x, sorted))
  {
    if sorted != [] && x.number > sorted[0].number {
      var rest := InsertByNumber(x, sorted[1..]);
      InsertKeepsSorted(x, sorted[1..]);
      forall j | 0 <= j < |rest| ensures sorted[0].number <= rest[j].number {
        assert rest[j] in multiset(rest);
        assert rest[j] in multiset(sorted[1..]) + multiset{x};
        if rest[j] != x {
          var k :| 0 <= k < |sorted[1..]| && sorted[1..][k] == rest[j];
          assert sorted[k + 1] == rest[j];
        }
      }
    }
  }

  /**
   * `matrix.sort(key=lambda x: x[0])`: an insertion sort that puts each row
   * before the already sorted rows of equal number, which came after it.
   */
  function SortByNumber(rows: seq<NumberedRow>): (r: seq<NumberedRow>)
    ensures multiset(r) == multiset(rows)
    ensures SortedByNumber(r)
  {
    if rows == [] then []
    else
      assert rows == [rows[0]] + rows[1..];
      InsertKeepsSorted(rows[0], SortByNumber(rows[1..]));
      InsertByNumber(rows[0], SortByNumber(rows[1..]))
  }

  lemma WithNumberCons(x: NumberedRow, t: seq<NumberedRow>, n: nat)
    ensures WithNumber([x] + t, n) == (if x.number == n then [x] else []) + WithNumber(t, n)
  {
    assert ([x] + t)[1..] == t;
  }

  lemma {:induction false} InsertKeepsGroups(x: NumberedRow, sorted: seq<NumberedRow>, n: nat)
    ensures WithNumber(InsertByNumber(x, sorted), n) == WithNumber([x] + sorted, n)
  {
    if sorted != [] && x.number > sorted[0].number {
      var s0, t := sorted[0], sorted[1..];
      assert sorted == [s0] + t;
      InsertKeepsGroups(x, t, n);
      WithNumberCons(s0, InsertByNumber(x, t), n);
      WithNumberCons(x, t, n);
      WithNumberCons(x, sorted, n);
      WithNumberCons(s0, t, n);
    }
  }

  /** SortByNumber is a stable sort by number. */
  lemma {:induction false} SortByNumberIsStable(rows: seq<NumberedRow>)
    ensures IsStableSortOf(SortByNumber(rows), rows)
  {
    if rows != [] {
      SortByNumberIsStable(rows[1..]);
      forall n: nat ensures WithNumber(SortByNumber(rows), n) == WithNumber(rows, n) {
        InsertKeepsGroups(rows[0], SortByNumber(rows[1..]), n);
        WithNumberCons(rows[0], SortByNumber(rows[1..]), n);
        WithNumberCons(rows[0], rows[1..], n);
        assert [rows[0]] + rows[1..] == rows;
      }
    }
  }

  lemma {:induction false} InGroup(s: seq<NumberedRow>, n: nat, y: NumberedRow)
    requires y in WithNumber(s, n)
    ensures y in s && y.number == n
  {
    if s != [] {
      if y != s[0] || s[0].number != n {
        InGroup(s[1..], n, y);
      }
    }
  }

  lemma NoGroupsMeansEmpty(s: seq<NumberedRow>)
    requires forall n: nat :: WithNumber(s, n) == []
    ensures s == []
  {
    if s != [] {
      assert WithNumber(s, s[0].number) == [s[0]] + WithNumber(s[1..], s[0].number);
      assert false;
    }
  }

  /** Two sequences sorted by number with the same groups are equal. */
  lemma {:induction false} SortedGroupsDetermine(a: seq<NumberedRow>, b: seq<NumberedRow>)
    requires SortedByNumber(a) && SortedByNumber(b)
    requires forall n: nat :: WithNumber(a, n) == WithNumber(b, n)
    ensures a == b
  {
    if a == [] {
      NoGroupsMeansEmpty(b);
    } else if b == [] {
      NoGroupsMeansEmpty(a);
    } else {
      var ka, kb := a[0].number, b[0].number;
      assert WithNumber(b, kb) == [b[0]] + WithNumber(b[1..], kb);
      InGroup(a, kb, b[0]);
      assert WithNumber(a, ka) == [a[0]] + WithNumber(a[1..], ka);
      InGroup(b, ka, a[0]);
      assert ka == kb;
      assert WithNumber(a, ka)[0] == a[0];
      assert WithNumber(b, ka)[0] == b[0];
      assert a[0] == b[0];
      forall n: nat ensures WithNumber(a[1..], n) == WithNumber(b[1..], n) {
        var ga, gb := WithNumber(a, n), WithNumber(b, n);
        assert ga == gb;
        WithNumberCons(a[0], a[1..], n);
        WithNumberCons(b[0], b[1..], n);
        assert [a[0]] + a[1..] == a;
        assert [b[0]] + b[1..] == b;
        if a[0].number == n {
          assert WithNumber(a[1..], n) == ga[1..];
          assert WithNumber(b[1..], n) == gb[1..];
        } else {
          assert WithNumber(a[1..], n) == ga;
          assert WithNumber(b[1..], n) == gb;
        }
      }
      SortedGroupsDetermine(a[1..], b[1..]);
      assert a == [a[0]] + a[1..];
      assert b == [b[0]] + b[1..];
    }
  }

  /** There is one stable sort of a sequence: any stable sort by number gives SortByNumber's result. */
  lemma StableSortIsUnique(sorted: seq<NumberedRow>, rows: seq<NumberedRow>)
    requires IsStableSortOf(sorted, rows)
    ensures sorted == SortByNumber(rows)
  {
    SortByNumberIsStable(rows);
    SortedGroupsDetermine(sorted, SortByNumber(rows));
  }

  function CellsOf(rows: seq<NumberedRow>): (m: Matrix)
    ensures |m| == |rows| && forall i :: 0 <= i < |rows| ==> m[i] == rows[i].cells
  {
    seq(|rows|, i requires 0 <= i < |rows| => rows[i].cells)
  }

  /** `re.match(r'^[\d ]+$', row)` holds for every row value. */
  predicate AllRowText(rows: seq<(string, string)>)
  {
    forall i :: 0 <= i < |rows| ==> IsRowText(rows[i].1)
  }

  /** The `Row_<n>` options of the Layout section, in file order. */
  function LayoutRows(config: ConfigFile): seq<(string, string)>
    requires "Layout" in SectionNames(config)
  {
    RowOptions(Options(config, "Layout").value)
  }

  /**
   * `parse_layout_matrix(config)`: every row value must pass the character
   * check before any is converted; the converted rows are stably sorted by
   * their number and their cells returned; no row at all fails.
   */
  function ParseLayoutMatrix(config: ConfigFile): (r: Result<Matrix, Fault>)
    ensures "Layout" !in SectionNames(config) ==> r == Err(NoSection("Layout"))
  {
    var options :- Options(config, "Layout");
    var rows := RowOptions(options);
    if !AllRowText(rows) then Err(BadLayoutRow)
    else
      var numbered :- NumberRows(rows);
      if numbered == [] then Err(NoLayoutRows)
      else Ok(CellsOf(SortByNumber(numbered)))
  }

  /**
   * The errors of parse_layout_matrix, in the order it raises them: a row
   * value with a character other than a digit or a space; then a row with
   * an empty piece (a leading, trailing or doubled space), which `int('')`
   * refuses; then no row at all.
   */
  lemma LayoutMatrixErrors(config: ConfigFile)
    requires "Layout" in SectionNames(config)
    ensures var r, rows := ParseLayoutMatrix(config), LayoutRows(config);
      && (!AllRowText(rows) ==> r == Err(BadLayoutRow))
      && (AllRowText(rows) && rows == [] ==> r == Err(NoLayoutRows))
      && (AllRowText(rows) ==> (r.Ok? <==> rows != [] && forall i :: 0 <= i < |rows| ==> RowCells(rows[i].1).Ok?))
      && (AllRowText(rows) && r.Err? && rows != [] ==> r == Err(NotAnInteger("")))
  {
    var rows := LayoutRows(config);
    if AllRowText(rows) && rows != [] {
      if !NumberRows(rows).Ok? {
        var i :| 0 <= i < |rows| && !RowCells(rows[i].1).Ok?;
        RowCellsOfRowText(rows[i].1);
        NumberRowsFirstError(rows);
      }
    }
  }

  /** The error of NumberRows is the error of the first row that fails to convert: an empty piece. */
  lemma NumberRowsFirstError(rows: seq<(string, string)>)
    requires forall i :: 0 <= i < |rows| ==> IsRowOption(rows[i].0)
    requires AllRowText(rows) && NumberRows(rows).Err?
    ensures NumberRows(rows) == Err(NotAnInteger(""))
  {
    var values := RowValues(rows);
    var r := ParseAll(CellsParser(), values);
    var i :| 0 <= i < |values| && CellsParser()(values[i]) == Err(r.error);
    RowCellsOfRowText(rows[i].1);
  }

  /**
   * A parsed matrix is the cells of the row options stably sorted by number,
   * and no row of it is empty.
   */
  lemma LayoutMatrixOrder(config: ConfigFile)
    requires ParseLayoutMatrix(config).Ok?
    ensures "Layout" in SectionNames(config)
    ensures var m := ParseLayoutMatrix(config).value;
      var numbered := NumberRows(LayoutRows(config)).value;
      && |m| > 0
      && (forall i :: 0 <= i < |m| ==> |m[i]| > 0)
      && exists sorted :: IsStableSortOf(sorted, numbered) && m == CellsOf(sorted)
  {
    var rows := LayoutRows(config);
    var numbered := NumberRows(rows).value;
    var m := ParseLayoutMatrix(config).value;
    SortByNumberIsStable(numbered);
    var sorted := SortByNumber(numbered);
    assert m == CellsOf(sorted);
    NumberedCellsNonEmpty(rows);
    forall i | 0 <= i < |m| ensures |m[i]| > 0 {
      assert sorted[i] in multiset(numbered);
    }
  }

  /** Every converted row that passed the character check has at least one cell. */
  lemma NumberedCellsNonEmpty(rows: seq<(string, string)>)
    requires forall i :: 0 <= i < |rows| ==> IsRowOption(rows[i].0)
    requires AllRowText(rows) && NumberRows(rows).Ok?
    ensures forall x :: x in NumberRows(rows).value ==> |x.cells| > 0
  {
    var numbered := NumberRows(rows).value;
    forall x | x in numbered ensures |x.cells| > 0 {
      var j :| 0 <= j < |numbered| && numbered[j] == x;
      RowCellsOfRowText(rows[j].1);
    }
  }

  // ----- Override list

  /** `[xs[i:i + wrap] for i in range(0, len(xs), wrap)]`. */
  function Chunks(xs: seq<int>, wrap: nat): Matrix
    requires wrap > 0
    decreases |xs|
  {
    if |xs| <= wrap then (if xs == [] then [] else [xs])
    else [xs[..wrap]] + Chunks(xs[wrap..], wrap)
  }

  /** The wrapped rows concatenate back to the list. */
  lemma {:induction false} ChunksFlatten(xs: seq<int>, wrap: nat)
    requires wrap > 0
    ensures Flatten(Chunks(xs, wrap)) == xs
    decreases |xs|
  {
    if |xs| > wrap {
      var rows := Chunks(xs, wrap);
      ChunksFlatten(xs[wrap..], wrap);
      assert rows[1..] == Chunks(xs[wrap..], wrap);
      assert xs == xs[..wrap] + xs[wrap..];
    } else if xs != [] {
      assert Flatten([xs]) == xs + Flatten([]);
    }
  }

  /** Every wrapped row holds 1 to `wrap` screens, and every row but the last exactly `wrap`. */
  lemma {:induction false} ChunksSizes(xs: seq<int>, wrap: nat)
    requires wrap > 0
    ensures forall i :: 0 <= i < |Chunks(xs, wrap)| ==> 0 < |Chunks(xs, wrap)[i]| <= wrap
    ensures forall i :: 0 <= i < |Chunks(xs, wrap)| - 1 ==> |Chunks(xs, wrap)[i]| == wrap
    decreases |xs|
  {
    if |xs| > wrap {
      var rows, rest := Chunks(xs, wrap), Chunks(xs[wrap..], wrap);
      ChunksSizes(xs[wrap..], wrap);
      assert rows == [xs[..wrap]] + rest;
      forall i | 0 <= i < |rows| ensures 0 < |rows[i]| <= wrap && (i < |rows| - 1 ==> |rows[i]| == wrap) {
        if i > 0 {
          assert rows[i] == rest[i - 1];
          assert 0 <= i - 1 < |rest|;
          assert 0 < |rest[i - 1]| <= wrap;
          assert i - 1 < |rest| - 1 ==> |rest[i - 1]| == wrap;
        } else {
          assert rows[0] == xs[..wrap];
        }
      }
    }
  }

  function Min(a: int, b: int): int { if a <= b then a else b }

  /** There are as many chunks as starts `0, wrap, 2 * wrap, …` below the length of the list. */
  lemma {:induction false} ChunksCount(xs: seq<int>, wrap: nat)
    requires wrap > 0
    ensures var n := |Chunks(xs, wrap)|;
      (n - 1) * wrap < |xs| <= n * wrap
    decreases |xs|
  {
    var n := |Chunks(xs, wrap)|;
    if |xs| > wrap {
      var m := |Chunks(xs[wrap..], wrap)|;
      ChunksCount(xs[wrap..], wrap);
      assert n == m + 1;
      assert n * wrap == m * wrap + wrap;
      assert (n - 1) * wrap == (m - 1) * wrap + wrap;
    }
  }

  lemma SliceOfDrop(xs: seq<int>, k: nat, lo: nat, hi: nat)
    requires k <= |xs| && lo <= hi <= |xs| - k
    ensures xs[k..][lo..hi] == xs[k + lo .. k + hi]
  {
  }

  /** `i * w` as repeated addition, so that the chunk proofs stay linear. */
  function Times(i: nat, w: nat): nat
  {
    if i == 0 then 0 else Times(i - 1, w) + w
  }

  lemma {:induction false} TimesIsProduct(i: nat, w: nat)
    ensures Times(i, w) == i * w
  {
    if i > 0 {
      TimesIsProduct(i - 1, w);
      assert i * w == (i - 1) * w + w;
    }
  }

  /** Chunk `i` is the slice `xs[i * wrap:i * wrap + wrap]`, cut short at the end of the list. */
  lemma ChunkAt(xs: seq<int>, wrap: nat, i: nat)
    requires wrap > 0 && i < |Chunks(xs, wrap)|
    ensures i * wrap < |xs|
    ensures Chunks(xs, wrap)[i] == xs[i * wrap .. Min(i * wrap + wrap, |xs|)]
  {
    TimesIsProduct(i, wrap);
    ChunkFrom(xs, wrap, i);
  }

  /** Chunk `i` of a list starts one `wrap` after chunk `i - 1` of the list without its first chunk. */
  lemma StartShift(i: nat, wrap: nat, rest: nat)
    requires i > 0
    ensures Times(i, wrap) == wrap + Times(i - 1, wrap)
    ensures Min(Times(i, wrap) + wrap, wrap + rest) == wrap + Min(Times(i - 1, wrap) + wrap, rest)
  {
  }

  /** Past the first chunk, the chunks are those of the rest of the list. */
  lemma ChunksCons(xs: seq<int>, wrap: nat)
    requires wrap > 0 && |Chunks(xs, wrap)| > 1
    ensures |xs| > wrap && Chunks(xs, wrap)[1..] == Chunks(xs[wrap..], wrap)
  {
  }

  lemma {:induction false} ChunkFrom(xs: seq<int>, wrap: nat, i: nat)
    requires wrap > 0 && i < |Chunks(xs, wrap)|
    ensures Times(i, wrap) < |xs|
    ensures Chunks(xs, wrap)[i] == xs[Times(i, wrap) .. Min(Times(i, wrap) + wrap, |xs|)]
    decreases i
  {
    if i > 0 {
      var rest, j := xs[wrap..], i - 1;
      ChunksCons(xs, wrap);
      assert Chunks(xs, wrap)[i] == Chunks(rest, wrap)[j];
      ChunkFrom(rest, wrap, j);
      var before := Times(j, wrap);
      var stop := Min(before + wrap, |rest|);
      StartShift(i, wrap, |rest|);
      SliceOfDrop(xs, wrap, before, stop);
    }
  }

  /**
   * The layout branch of `parse_user_config`: a non-empty override is cut
   * into rows of `wrap` (which must be positive) or kept as a single row;
   * otherwise the Layout section of the configuration is parsed.
   */
  function SelectLayout(config: ConfigFile, override: seq<int>, wrap: Option<int>): (r: Result<Matrix, Fault>)
    ensures |override| > 0 ==> (r.Err? <==> wrap.Some? && wrap.value <= 0)
    ensures |override| > 0 && r.Err? ==> r.error == WrapNotPositive
    ensures |override| > 0 && r.Ok? ==> Flatten(r.value) == override
    ensures |override| > 0 && wrap.None? ==> r == Ok([override])
    ensures |override| > 0 && r.Ok? && wrap.Some? ==>
      (forall i :: 0 <= i < |r.value| ==> 0 < |r.value[i]| <= wrap.value) &&
      (forall i :: 0 <= i < |r.value| - 1 ==> |r.value[i]| == wrap.value)
    ensures |override| == 0 && "Layout" !in SectionNames(config) ==> r == Err(NoLayoutSection)
    ensures |override| == 0 && "Layout" in SectionNames(config) ==> r == ParseLayoutMatrix(config)
  {
    if |override| > 0 then
      match wrap
      case Some(w) =>
        if w <= 0 then Err(WrapNotPositive)
        else
          ChunksFlatten(override, w);
          ChunksSizes(override, w);
          Ok(Chunks(override, w))
      case None =>
        assert Flatten([override]) == override + Flatten([]);
        Ok([override])
    else if "Layout" !in SectionNames(config) then Err(NoLayoutSection)
    else ParseLayoutMatrix(config)
  }

  /** Whatever its source, a selected layout has no empty row. */
  lemma SelectedRowsNonEmpty(config: ConfigFile, override: seq<int>, wrap: Option<int>)
    requires SelectLayout(config, override, wrap).Ok?
    ensures forall i :: 0 <= i < |SelectLayout(config, override, wrap).value| ==>
      |SelectLayout(config, override, wrap).value[i]| > 0
  {
    if |override| == 0 {
      LayoutMatrixOrder(config);
    }
  }
}
