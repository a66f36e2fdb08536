/**
 * The flow layout of `compute_screen_positions`: each row is laid out left
 * to right from x = 0, a screen taking the current offset and moving x on by
 * its width; the next row starts below the tallest screen of the row before.
 */
module Positions {
  import opened Wrappers
  import opened Text
  import opened Config
  import opened Screens
  import opened Layout

  /** The width of the record under `k`; 0 when there is none. */
  function WidthOf(t: Table, k: int): nat
  {
    if k in t.screens then t.screens[k].width else 0
  }

  /** The height of the record under `k`; 0 when there is none. */
  function HeightOf(t: Table, k: int): nat
  {
    if k in t.screens then t.screens[k].height else 0
  }

  /** The total width of the screens of a row: the x just after them. */
  function SumWidths(row: seq<int>, t: Table): nat
  {
    if row == [] then 0 else SumWidths(row[..|row| - 1], t) + WidthOf(t, Last(row))
  }

  function Max(a: nat, b: nat): nat { if a >= b then a else b }

  /** `max(screens[index]['height'] for index in row)`, taken as 0 for an empty row. */
  function RowHeight(row: seq<int>, t: Table): nat
  {
    if row == [] then 0 else Max(RowHeight(row[..|row| - 1], t), HeightOf(t, Last(row)))
  }

  /** The height of a row is the height of its tallest screen. */
  lemma {:induction false} RowHeightIsMax(row: seq<int>, t: Table)
    ensures forall j :: 0 <= j < |row| ==> HeightOf(t, row[j]) <= RowHeight(row, t)
    ensures row != [] ==> exists j :: 0 <= j < |row| && HeightOf(t, row[j]) == RowHeight(row, t)
  {
    if row != [] {
      var n := |row| - 1;
      var prefix := row[..n];
      RowHeightIsMax(prefix, t);
      assert forall j :: 0 <= j < n ==> prefix[j] == row[j];
      assert row[..n] == prefix && Last(row) == row[n];
      if n > 0 && RowHeight(prefix, t) >= HeightOf(t, row[n]) {
        var j :| 0 <= j < n && HeightOf(t, prefix[j]) == RowHeight(prefix, t);
        assert HeightOf(t, row[j]) == RowHeight(row, t);
      } else {
        assert HeightOf(t, row[n]) == RowHeight(row, t);
      }
    }
  }

  /** The total height of the rows: the y at which the next row starts. */
  function SumHeights(rows: Matrix, t: Table): nat
  {
    if rows == [] then 0 else SumHeights(rows[..|rows| - 1], t) + RowHeight(Last(rows), t)
  }

  // ----- The positions as values

  /**
   * The inner loop of `compute_screen_positions` for one row starting at
   * height `y`: the position each index of the row receives last, or the
   * first index that has no record.
   */
  function RowPlacement(row: seq<int>, t: Table, y: int): Result<map<int, Pos>, Fault>
  {
    if row == [] then Ok(map[])
    else
      var prefix := row[..|row| - 1];
      var placed :- RowPlacement(prefix, t, y);
      var k := Last(row);
      if k !in t.screens then Err(ScreenNotFound(k))
      else Ok(placed[k := Pos(SumWidths(prefix, t), y)])
  }

  /**
   * `compute_screen_positions(layout, screens)` as a value: the position each
   * index of the layout receives last. It fails on the first index, in
   * reading order, that has no record, and on an empty row, whose tallest
   * screen `max` cannot find.
   */
  function Placement(layout: Matrix, t: Table): Result<map<int, Pos>, Fault>
  {
    if layout == [] then Ok(map[])
    else
      var prefix := layout[..|layout| - 1];
      var placed :- Placement(prefix, t);
      var row := Last(layout);
      var inRow :- RowPlacement(row, t, SumHeights(prefix, t));
      if row == [] then Err(EmptyRow) else Ok(placed + inRow)
  }

  /** The records after the pass: a placed key takes its position, every other record is unchanged. */
  function WithPositions(t: Table, placed: map<int, Pos>): (r: Table)
    ensures WellFormed(t) ==> WellFormed(r)
  {
    Table(t.order, map k | k in t.screens :: if k in placed then t.screens[k].(position := Some(placed[k])) else t.screens[k])
  }

  // ----- What the placement is

  /** An index occurs at row `i`, column `j`, and nowhere after it in reading order. */
  ghost predicate LastOccurrence(layout: Matrix, i: nat, j: nat)
    requires i < |layout| && j < |layout[i]|
  {
    && (forall j' :: j < j' < |layout[i]| ==> layout[i][j'] != layout[i][j])
    && (forall i', j' :: i < i' < |layout| && 0 <= j' < |layout[i']| ==> layout[i'][j'] != layout[i][j])
  }

  /** The row placement succeeds exactly when every index has a record, and places exactly the row's indices. */
  lemma {:induction false} RowPlacementOk(row: seq<int>, t: Table, y: int)
    ensures RowPlacement(row, t, y).Ok? <==> forall j :: 0 <= j < |row| ==> row[j] in t.screens
    ensures RowPlacement(row, t, y).Ok? ==> forall k :: k in RowPlacement(row, t, y).value <==> k in row
  {
    if row != [] {
      var n := |row| - 1;
      var prefix := row[..n];
      RowPlacementOk(prefix, t, y);
      assert forall j :: 0 <= j < n ==> prefix[j] == row[j];
      assert row == prefix + [row[n]];
    }
  }

  /** Column `j` holds the first index of the row that has no record. */
  ghost predicate FirstMissing(row: seq<int>, t: Table, j: int)
  {
    0 <= j < |row| && row[j] !in t.screens && forall j' :: 0 <= j' < j ==> row[j'] in t.screens
  }

  /** A failed row names its first index, left to right, that has no record. */
  lemma {:induction false} RowPlacementErr(row: seq<int>, t: Table, y: int)
    requires RowPlacement(row, t, y).Err?
    ensures exists j :: FirstMissing(row, t, j) && RowPlacement(row, t, y).error == ScreenNotFound(row[j])
  {
    var n := |row| - 1;
    var prefix := row[..n];
    if RowPlacement(prefix, t, y).Err? {
      RowPlacementErr(prefix, t, y);
      var j :| FirstMissing(prefix, t, j) && RowPlacement(prefix, t, y).error == ScreenNotFound(prefix[j]);
      assert forall j' :: 0 <= j' <= j ==> prefix[j'] == row[j'];
      assert FirstMissing(row, t, j);
    } else {
      RowPlacementOk(prefix, t, y);
      assert forall j' :: 0 <= j' < n ==> prefix[j'] == row[j'];
      assert FirstMissing(row, t, n);
    }
  }

  /** A screen the row places last at column `j` sits after the widths of the screens before it. */
  lemma {:induction false} RowPlacementAt(row: seq<int>, t: Table, y: int, j: nat)
    requires RowPlacement(row, t, y).Ok? && j < |row|
    requires forall j' :: j < j' < |row| ==> row[j'] != row[j]
    ensures row[j] in RowPlacement(row, t, y).value
    ensures RowPlacement(row, t, y).value[row[j]] == Pos(SumWidths(row[..j], t), y)
  {
    var n := |row| - 1;
    var prefix := row[..n];
    if j < n {
      assert prefix[j] == row[j] && prefix[..j] == row[..j];
      assert forall j' :: j < j' < n ==> prefix[j'] == row[j'];
      RowPlacementAt(prefix, t, y, j);
    }
  }

  /** The layout is placed exactly when every index has a record and no row is empty. */
  lemma {:induction false} PlacementOk(layout: Matrix, t: Table)
    ensures Placement(layout, t).Ok? <==>
      (forall i :: 0 <= i < |layout| ==> layout[i] != []) &&
      (forall i, j :: 0 <= i < |layout| && 0 <= j < |layout[i]| ==> layout[i][j] in t.screens)
    ensures Placement(layout, t).Ok? ==>
      forall k :: k in Placement(layout, t).value <==> exists i :: 0 <= i < |layout| && k in layout[i]
  {
    if layout != [] {
      var n := |layout| - 1;
      var prefix := layout[..n];
      PlacementOk(prefix, t);
      assert forall i :: 0 <= i < n ==> prefix[i] == layout[i];
      RowPlacementOk(layout[n], t, SumHeights(prefix, t));
      if Placement(layout, t).Ok? {
        forall k | (exists i :: 0 <= i < |layout| && k in layout[i]) ensures k in Placement(layout, t).value {
          var i :| 0 <= i < |layout| && k in layout[i];
          if i < n {
            assert k in prefix[i];
          }
        }
      }
    }
  }

  /** Every index in the rows before row `i` has a record. */
  ghost predicate RowsPlaceable(layout: Matrix, t: Table, i: nat)
    requires i <= |layout|
  {
    forall i', j' :: 0 <= i' < i && 0 <= j' < |layout[i']| ==> layout[i'][j'] in t.screens
  }

  /**
   * The failures of the pass, at the first place in reading order where
   * one occurs: a missing index, or an empty row.
   */
  lemma {:induction false} PlacementErr(layout: Matrix, t: Table)
    requires Placement(layout, t).Err?
    ensures || (Placement(layout, t).error == EmptyRow &&
                 exists i :: 0 <= i < |layout| && layout[i] == [] && RowsPlaceable(layout, t, i) &&
                   forall i' :: 0 <= i' < i ==> layout[i'] != [])
            || (exists i, j :: 0 <= i < |layout| && 0 <= j < |layout[i]| && layout[i][j] !in t.screens &&
                 Placement(layout, t).error == ScreenNotFound(layout[i][j]) &&
                 RowsPlaceable(layout, t, i) && (forall i' :: 0 <= i' < i ==> layout[i'] != []) &&
                 FirstMissing(layout[i], t, j))
  {
    var n := |layout| - 1;
    var prefix := layout[..n];
    var row := layout[n];
    assert forall i :: 0 <= i < n ==> prefix[i] == layout[i];
    RowPlacementOk(row, t, SumHeights(prefix, t));
    if RowPlacement(row, t, SumHeights(prefix, t)).Err? {
      RowPlacementErr(row, t, SumHeights(prefix, t));
    }
    if Placement(prefix, t).Err? {
      PlacementErr(prefix, t);
      assert forall i :: 0 <= i <= n ==> RowsPlaceable(prefix, t, i) ==> RowsPlaceable(layout, t, i);
    } else {
      PlacementOk(prefix, t);
      assert RowsPlaceable(layout, t, n);
      assert forall i' :: 0 <= i' < n ==> layout[i'] != [];
      if RowPlacement(row, t, SumHeights(prefix, t)).Err? {
        var j :| FirstMissing(row, t, j) && RowPlacement(row, t, SumHeights(prefix, t)).error == ScreenNotFound(row[j]);
        assert Placement(layout, t).error == ScreenNotFound(layout[n][j]);
      } else {
        assert row == [] && Placement(layout, t).error == EmptyRow;
      }
    }
  }

  /**
   * Where each screen goes: an index placed last at row `i`, column `j` has x
   * the widths of the screens before it in its row and y the heights of the
   * rows above.
   */
  lemma {:induction false} PlacementAt(layout: Matrix, t: Table, i: nat, j: nat)
    requires Placement(layout, t).Ok? && i < |layout| && j < |layout[i]|
    requires LastOccurrence(layout, i, j)
    ensures layout[i][j] in Placement(layout, t).value
    ensures Placement(layout, t).value[layout[i][j]] == Pos(SumWidths(layout[i][..j], t), SumHeights(layout[..i], t))
  {
    var n := |layout| - 1;
    var prefix := layout[..n];
    var y := SumHeights(prefix, t);
    var k := layout[i][j];
    if i == n {
      assert prefix == layout[..i];
      RowPlacementAt(layout[n], t, y, j);
    } else {
      assert prefix[i] == layout[i] && prefix[..i] == layout[..i];
      assert forall i' :: i < i' < n ==> prefix[i'] == layout[i'];
      PlacementAt(prefix, t, i, j);
      RowPlacementOk(layout[n], t, y);
      assert k !in layout[n];
    }
  }

  /** The first screen of the first row sits at the origin. */
  lemma FirstAtOrigin(layout: Matrix, t: Table)
    requires Placement(layout, t).Ok? && |layout| > 0 && |layout[0]| > 0
    requires LastOccurrence(layout, 0, 0)
    ensures layout[0][0] in Placement(layout, t).value && Placement(layout, t).value[layout[0][0]] == Pos(0, 0)
  {
    PlacementAt(layout, t, 0, 0);
  }

  /** Two tables with the same keys and the same sizes. */
  ghost predicate SameSizes(a: Table, b: Table)
  {
    (forall k :: k in a.screens <==> k in b.screens) &&
    (forall k :: WidthOf(a, k) == WidthOf(b, k) && HeightOf(a, k) == HeightOf(b, k))
  }

  lemma {:induction false} RowSumsDependOnSizes(row: seq<int>, a: Table, b: Table)
    requires SameSizes(a, b)
    ensures SumWidths(row, a) == SumWidths(row, b) && RowHeight(row, a) == RowHeight(row, b)
  {
    if row != [] {
      RowSumsDependOnSizes(row[..|row| - 1], a, b);
    }
  }

  lemma {:induction false} SumHeightsDependOnSizes(rows: Matrix, a: Table, b: Table)
    requires SameSizes(a, b)
    ensures SumHeights(rows, a) == SumHeights(rows, b)
  {
    if rows != [] {
      SumHeightsDependOnSizes(rows[..|rows| - 1], a, b);
      RowSumsDependOnSizes(Last(rows), a, b);
    }
  }

  lemma {:induction false} RowPlacementDependsOnSizes(row: seq<int>, y: int, a: Table, b: Table)
    requires SameSizes(a, b)
    ensures RowPlacement(row, a, y) == RowPlacement(row, b, y)
  {
    if row != [] {
      RowPlacementDependsOnSizes(row[..|row| - 1], y, a, b);
      RowSumsDependOnSizes(row[..|row| - 1], a, b);
    }
  }

  /**
   * The positions depend on the keys and the sizes of the records alone: a
   * screen's id, name, rate or earlier position plays no part, so a DUMMY
   * screen takes its share of the offsets like any other.
   */
  lemma {:induction false} PlacementDependsOnSizes(layout: Matrix, a: Table, b: Table)
    requires SameSizes(a, b)
    ensures Placement(layout, a) == Placement(layout, b)
  {
    if layout != [] {
      var prefix := layout[..|layout| - 1];
      PlacementDependsOnSizes(prefix, a, b);
      SumHeightsDependOnSizes(prefix, a, b);
      RowPlacementDependsOnSizes(Last(layout), SumHeights(prefix, a), a, b);
    }
  }

  /** Setting positions changes no key and no size, and leaves an unplaced record as it was. */
  lemma WithPositionsKeepsRecords(t: Table, placed: map<int, Pos>)
    ensures SameSizes(t, WithPositions(t, placed))
    ensures WithPositions(t, placed).order == t.order
    ensures forall k :: k in t.screens && k !in placed ==> WithPositions(t, placed).screens[k] == t.screens[k]
    ensures forall k :: k in t.screens && k in placed ==>
      WithPositions(t, placed).screens[k] == t.screens[k].(position := Some(placed[k]))
  {
  }

  // ----- The pass, in place

  /** Placing one more screen is storing its record with the new position. */
  lemma PlaceOne(t: Table, placed: map<int, Pos>, k: int, p: Pos)
    requires k in t.screens
    ensures var now := WithPositions(t, placed);
      Insert(now, k, now.screens[k].(position := Some(p))) == WithPositions(t, placed[k := p])
  {
    var now := WithPositions(t, placed);
    assert Insert(now, k, now.screens[k].(position := Some(p))).screens == WithPositions(t, placed[k := p]).screens;
  }

  /** A failing prefix of a row makes the whole row fail the same way. */
  lemma {:induction false} RowErrPersists(row: seq<int>, t: Table, y: int, n: nat)
    requires n <= |row| && RowPlacement(row[..n], t, y).Err?
    ensures RowPlacement(row, t, y) == RowPlacement(row[..n], t, y)
    decreases |row| - n
  {
    if n < |row| {
      assert row[..n + 1][..n] == row[..n];
      RowErrPersists(row, t, y, n + 1);
    } else {
      assert row[..n] == row;
    }
  }

  /** A failing prefix of the layout makes the whole layout fail the same way. */
  lemma {:induction false} PlacementErrPersists(layout: Matrix, t: Table, n: nat)
    requires n <= |layout| && Placement(layout[..n], t).Err?
    ensures Placement(layout, t) == Placement(layout[..n], t)
    decreases |layout| - n
  {
    if n < |layout| {
      assert layout[..n + 1][..n] == layout[..n];
      PlacementErrPersists(layout, t, n + 1);
    } else {
      assert layout[..n] == layout;
    }
  }

  /** One step of the inner loop: the next screen of the row takes the current offset. */
  lemma RowStep(row: seq<int>, t0: Table, y: int, j: nat, above: map<int, Pos>)
    requires j < |row| && row[j] in t0.screens && RowPlacement(row[..j], t0, y).Ok?
    ensures RowPlacement(row[..j + 1], t0, y).Ok?
    ensures SumWidths(row[..j + 1], t0) == SumWidths(row[..j], t0) + t0.screens[row[j]].width
    ensures var now := WithPositions(t0, above + RowPlacement(row[..j], t0, y).value);
      Insert(now, row[j], now.screens[row[j]].(position := Some(Pos(SumWidths(row[..j], t0), y)))) ==
      WithPositions(t0, above + RowPlacement(row[..j + 1], t0, y).value)
  {
    var inRow := RowPlacement(row[..j], t0, y).value;
    var p := Pos(SumWidths(row[..j], t0), y);
    assert row[..j + 1][..j] == row[..j] && Last(row[..j + 1]) == row[j];
    assert RowPlacement(row[..j + 1], t0, y).value == inRow[row[j] := p];
    PlaceOne(t0, above + inRow, row[j], p);
    assert (above + inRow)[row[j] := p] == above + inRow[row[j] := p];
  }

  /**
   * The inner loop of `compute_screen_positions`: the screens of one row take
   * the offsets from x = 0 at height `y`, in order.
   */
  method PlaceRow(row: seq<int>, y: int, screens: ScreenRegistry, ghost t0: Table, ghost above: map<int, Pos>)
    returns (outcome: Outcome<Fault>)
    requires screens.Valid() && screens.Contents() == WithPositions(t0, above)
    modifies screens
    ensures screens.Valid() && screens.order == t0.order && SameSizes(t0, screens.Contents())
    ensures RowPlacement(row, t0, y).Ok? ==>
      outcome == Pass && screens.Contents() == WithPositions(t0, above + RowPlacement(row, t0, y).value)
    ensures RowPlacement(row, t0, y).Err? ==> outcome == Fail(RowPlacement(row, t0, y).error)
  {
    WithPositionsKeepsRecords(t0, above);
    assert above + map[] == above;
    var x := 0;
    var j := 0;
    while j < |row|
      invariant 0 <= j <= |row|
      invariant screens.Valid() && screens.order == t0.order
      invariant RowPlacement(row[..j], t0, y).Ok?
      invariant screens.Contents() == WithPositions(t0, above + RowPlacement(row[..j], t0, y).value)
      invariant x == SumWidths(row[..j], t0)
    {
      var index := row[j];
      WithPositionsKeepsRecords(t0, above + RowPlacement(row[..j], t0, y).value);
      if index !in screens.screens {
        assert row[..j + 1][..j] == row[..j] && Last(row[..j + 1]) == index;
        RowErrPersists(row, t0, y, j + 1);
        return Fail(ScreenNotFound(index));
      }
      RowStep(row, t0, y, j, above);
      screens.SetPosition(index, Pos(x, y));
      x := x + screens.screens[index].width;
      j := j + 1;
    }
    assert row[..j] == row;
    WithPositionsKeepsRecords(t0, above + RowPlacement(row, t0, y).value);
    return Pass;
  }

  /**
   * `compute_screen_positions(layout, screens)`: on success every record
   * takes the position the layout gives it last and nothing else changes;
   * on failure the error is the one the placement names, and at most some
   * positions have been written.
   */
  method ComputeScreenPositions(layout: Matrix, screens: ScreenRegistry) returns (outcome: Outcome<Fault>)
    requires screens.Valid()
    modifies screens
    ensures screens.Valid()
    ensures Placement(layout, old(screens.Contents())).Ok? ==>
      outcome == Pass && screens.Contents() == WithPositions(old(screens.Contents()), Placement(layout, old(screens.Contents())).value)
    ensures Placement(layout, old(screens.Contents())).Err? ==>
      outcome == Fail(Placement(layout, old(screens.Contents())).error) &&
      SameSizes(old(screens.Contents()), screens.Contents()) && screens.order == old(screens.order)
  {
    ghost var t0 := screens.Contents();
    assert WithPositions(t0, map[]) == t0;
    var y := 0;
    var i := 0;
    while i < |layout|
      invariant 0 <= i <= |layout|
      invariant screens.Valid() && screens.order == t0.order
      invariant Placement(layout[..i], t0).Ok?
      invariant screens.Contents() == WithPositions(t0, Placement(layout[..i], t0).value)
      invariant y == SumHeights(layout[..i], t0)
    {
      var row := layout[i];
      ghost var above := Placement(layout[..i], t0).value;
      assert layout[..i + 1][..i] == layout[..i] && Last(layout[..i + 1]) == row;
      var rowOutcome := PlaceRow(row, y, screens, t0, above);
      if rowOutcome.Fail? {
        PlacementErrPersists(layout, t0, i + 1);
        return rowOutcome;
      }
      if row == [] {
        PlacementErrPersists(layout, t0, i + 1);
        return Fail(EmptyRow);
      }
      RowSumsDependOnSizes(row, t0, screens.Contents());
      y := y + RowHeight(row, screens.Contents());
      i := i + 1;
    }
    assert layout[..i] == layout;
    return Pass;
  }
}
