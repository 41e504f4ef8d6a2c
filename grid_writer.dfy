/**
 * The loops the osivia SpreadsheetService runs over a sheet's cells, on the sheet's grid, each
 * proved to produce the reference grid of GridOps.
 *
 * The shifting loops of deleteRows, insertColumn and deleteColumn walk a snapshot list of cells
 * (a query result) in an order the store chooses, and give each cell a new index. MoveCells
 * walks the snapshot in any order; a moved cell leaves its old address at once and is staged
 * under its new one until the loop ends, which is how independent cell entities behave. Its
 * precondition is the no-collision property: no moved cell lands on a cell that stays.
 */
module GridWriter {
  import opened Wrappers
  import opened CellRepository
  import opened GridOps

  // ---------------------------------------------------------------- moving a block of cells

  /** Translating a block is translating all but one cell, then adding that one. */
  lemma TranslateOneMore(m: Grid, dRow: int, dCol: int, a: Addr)
    requires Movable(m, dRow, dCol) && a in m
    ensures Translate(m, dRow, dCol) == Translate(m - {a}, dRow, dCol)[Target(a, dRow, dCol) := m[a]]
    ensures Target(a, dRow, dCol) !in Translate(m - {a}, dRow, dCol)
  {
    var t, tr := Translate(m, dRow, dCol), Translate(m - {a}, dRow, dCol);
    var b := Target(a, dRow, dCol);
    forall x
      ensures x in t <==> x in tr || x == b
      ensures x in t ==> t[x] == if x == b then m[a] else tr[x]
    {
      TranslateAt(m, dRow, dCol, x);
      TranslateAt(m - {a}, dRow, dCol, x);
    }
    TranslateAt(m - {a}, dRow, dCol, b);
    SameCells(t, tr[b := m[a]]);
  }

  /** Translation loses no cell: distinct cells land on distinct addresses. */
  lemma {:induction false} TranslateKeepsCount(m: Grid, dRow: int, dCol: int)
    requires Movable(m, dRow, dCol)
    ensures |Translate(m, dRow, dCol)| == |m|
    decreases |m|
  {
    if m != map[] {
      var a :| a in m;
      RemoveOneSize(m, a);
      TranslateKeepsCount(m - {a}, dRow, dCol);
      TranslateOneMore(m, dRow, dCol, a);
    }
  }

  /** No moved cell lands on a cell that stays where it is. */
  predicate NoCollision(g: Grid, m: Grid, dRow: int, dCol: int)
    requires Movable(m, dRow, dCol)
  {
    var stay := g - m.Keys;
    forall a {:trigger a in m} :: a in m ==> Target(a, dRow, dCol) !in stay
  }

  /** The grid after a block move: what stays, plus the moved block. */
  function AfterMove(g: Grid, m: Grid, dRow: int, dCol: int): Grid
    requires Movable(m, dRow, dCol)
  {
    (g - m.Keys) + Translate(m, dRow, dCol)
  }

  /** What the grid holds after a block move, at every address. */
  lemma AfterMoveAt(g: Grid, m: Grid, dRow: int, dCol: int, b: Addr)
    requires Movable(m, dRow, dCol)
    ensures b in AfterMove(g, m, dRow, dCol) <==>
              (b in g && b !in m) || (b.0 - dRow >= 0 && b.1 - dCol >= 0 && Source(b, dRow, dCol) in m)
    ensures b in AfterMove(g, m, dRow, dCol) ==>
              AfterMove(g, m, dRow, dCol)[b] ==
                if b.0 - dRow >= 0 && b.1 - dCol >= 0 && Source(b, dRow, dCol) in m
                then m[Source(b, dRow, dCol)] else g[b]
  {
    TranslateAt(m, dRow, dCol, b);
  }

  /** Without collisions the moved block lands only on free addresses. */
  lemma MoveLandsOnFreeCells(g: Grid, m: Grid, dRow: int, dCol: int)
    requires Movable(m, dRow, dCol)
    requires NoCollision(g, m, dRow, dCol)
    ensures (g - m.Keys).Keys !! Translate(m, dRow, dCol).Keys
  {
    forall b | b in Translate(m, dRow, dCol)
      ensures b !in g - m.Keys
    {
      TranslateAt(m, dRow, dCol, b);
      var a := Source(b, dRow, dCol);
      assert Target(a, dRow, dCol) == b;
    }
  }

  /** A collision-free move of a block taken from the grid keeps the number of cells. */
  lemma MoveKeepsCount(g: Grid, m: Grid, dRow: int, dCol: int)
    requires Movable(m, dRow, dCol)
    requires forall a :: a in m ==> a in g
    requires NoCollision(g, m, dRow, dCol)
    ensures |AfterMove(g, m, dRow, dCol)| == |g|
  {
    TranslateKeepsCount(m, dRow, dCol);
    MoveLandsOnFreeCells(g, m, dRow, dCol);
    RemoveKeysSize(g, m.Keys);
    DisjointUnionSize(g - m.Keys, Translate(m, dRow, dCol));
  }

  /**
   * The state of the shifting loop: the cells still `pending` sit at their old address, the
   * others have left it and are staged in `moved` under their new one.
   */
  ghost predicate Staged(g: Grid, m: Grid, dRow: int, dCol: int, pending: set<Addr>, stay: Grid, moved: Grid)
    requires Movable(m, dRow, dCol)
  {
    && pending <= m.Keys
    && (forall a {:trigger a in stay} :: a in stay <==> a in g && (a !in m || a in pending))
    && (forall a :: a in stay ==> stay[a] == g[a])
    && (forall b :: b in moved <==>
          b.0 - dRow >= 0 && b.1 - dCol >= 0 && Source(b, dRow, dCol) in m && Source(b, dRow, dCol) !in pending)
    && (forall b :: b in moved ==>
          b.0 - dRow >= 0 && b.1 - dCol >= 0 && moved[b] == m[Source(b, dRow, dCol)])
  }

  /** Before the loop, every cell is pending and nothing is staged. */
  lemma StagedStart(g: Grid, m: Grid, dRow: int, dCol: int)
    requires Movable(m, dRow, dCol)
    ensures Staged(g, m, dRow, dCol, m.Keys, g, map[])
  {
  }

  /** Moving one more pending cell keeps the loop state. */
  lemma StageStep(g: Grid, m: Grid, dRow: int, dCol: int, pending: set<Addr>, stay: Grid, moved: Grid, a: Addr)
    requires Movable(m, dRow, dCol)
    requires Staged(g, m, dRow, dCol, pending, stay, moved) && a in pending
    ensures Staged(g, m, dRow, dCol, pending - {a}, stay - {a}, moved[Target(a, dRow, dCol) := m[a]])
  {
    var b := Target(a, dRow, dCol);
    assert Source(b, dRow, dCol) == a;
    var moved' := moved[b := m[a]];
    forall c: Addr
      ensures c in moved' <==>
                c.0 - dRow >= 0 && c.1 - dCol >= 0 && Source(c, dRow, dCol) in m && Source(c, dRow, dCol) !in pending - {a}
    {
      if c != b && c.0 - dRow >= 0 && c.1 - dCol >= 0 {
        assert Target(Source(c, dRow, dCol), dRow, dCol) == c;
      }
    }
  }

  /** When nothing is pending, the staged cells are the translated block. */
  lemma StagedIsTranslate(g: Grid, m: Grid, dRow: int, dCol: int, stay: Grid, moved: Grid)
    requires Movable(m, dRow, dCol)
    requires Staged(g, m, dRow, dCol, {}, stay, moved)
    ensures moved == Translate(m, dRow, dCol)
  {
    forall b
      ensures b in moved <==> b in Translate(m, dRow, dCol)
      ensures b in moved ==> moved[b] == Translate(m, dRow, dCol)[b]
    {
      TranslateAt(m, dRow, dCol, b);
    }
    SameCells(moved, Translate(m, dRow, dCol));
  }

  /** When nothing is pending, exactly the unmoved cells stay. */
  lemma StagedStay(g: Grid, m: Grid, dRow: int, dCol: int, stay: Grid, moved: Grid)
    requires Movable(m, dRow, dCol)
    requires Staged(g, m, dRow, dCol, {}, stay, moved)
    ensures stay == g - m.Keys
  {
  }

  /**
   * The shifting loop: each cell of the snapshot `m`, visited in any order, takes its new index.
   * The result is what stays plus the moved block, with no cell lost.
   */
  method MoveCells(g: Grid, m: Grid, dRow: int, dCol: int) returns (h: Grid)
    requires Movable(m, dRow, dCol)
    requires forall a :: a in m ==> a in g && g[a] == m[a]
    requires NoCollision(g, m, dRow, dCol)
    ensures h == AfterMove(g, m, dRow, dCol)
    ensures |h| == |g|
  {
    var stay := g;
    var moved: Grid := map[];
    var pending := m.Keys;
    StagedStart(g, m, dRow, dCol);
    while pending != {}
      invariant Staged(g, m, dRow, dCol, pending, stay, moved)
      decreases |pending|
    {
      var a :| a in pending;
      StageStep(g, m, dRow, dCol, pending, stay, moved, a);
      stay := stay - {a};
      moved := moved[Target(a, dRow, dCol) := m[a]];
      pending := pending - {a};
    }
    StagedIsTranslate(g, m, dRow, dCol, stay, moved);
    StagedStay(g, m, dRow, dCol, stay, moved);
    h := stay + moved;
    MoveKeepsCount(g, m, dRow, dCol);
  }

  // ---------------------------------------------------------------- updateCells

  /** The updateCells loop: look the address up, then delete (if present) or save. */
  method ApplyUpdates(g: Grid, us: seq<CellUpdate>) returns (h: Grid)
    ensures h == UpdateCells(g, us)
  {
    h := g;
    var i := 0;
    while i < |us|
      invariant 0 <= i <= |us|
      invariant h == UpdateCells(g, us[..i])
    {
      var u := us[i];
      var existing := Lookup(h, (u.row, u.col));
      if Clears(u) {
        if existing.Some? {
          h := h - {(u.row, u.col)};
        } else {
          assert h - {(u.row, u.col)} == h;
        }
      } else {
        h := h[(u.row, u.col) := u.value.value];
      }
      assert us[..i + 1][..i] == us[..i];
      i := i + 1;
    }
    assert us[..i] == us;
  }

  // ---------------------------------------------------------------- writing rows and columns

  /** Saving a cell into the written block or on top of the whole grid is the same. */
  lemma UnionUpdate(g: Grid, r: Grid, k: Addr, v: string)
    ensures (g + r)[k := v] == g + r[k := v]
  {
  }

  /** Writing two blocks one after the other is writing their union. */
  lemma UnionAssoc(g: Grid, a: Grid, b: Grid)
    ensures (g + a) + b == g + (a + b)
  {
  }

  /** RowCells grows by one saved value per column. */
  lemma RowCellsStep(row: nat, values: seq<Option<string>>, col: nat)
    requires col < |values|
    ensures RowCells(row, values[..col + 1]) ==
              if Blank(values[col]) then RowCells(row, values[..col])
              else RowCells(row, values[..col])[(row, col) := Trim(values[col].value)]
  {
    var s := values[..col + 1];
    assert s[..|s| - 1] == values[..col];
    var last := s[|s| - 1];
    assert last == values[col];
    assert RowCells(row, s) == if Blank(last) then RowCells(row, values[..col]) else RowCells(row, values[..col])[(row, col) := Trim(last.value)];
  }

  /** ColumnCells grows by one saved value per row. */
  lemma ColumnCellsStep(col: nat, values: seq<Option<string>>, row: nat)
    requires row < |values|
    ensures ColumnCells(col, values[..row + 1]) ==
              if Blank(values[row]) then ColumnCells(col, values[..row])
              else ColumnCells(col, values[..row])[(row, col) := Trim(values[row].value)]
  {
    var s := values[..row + 1];
    assert s[..|s| - 1] == values[..row];
    var last := s[|s| - 1];
    assert last == values[row];
    assert ColumnCells(col, s) == if Blank(last) then ColumnCells(col, values[..row]) else ColumnCells(col, values[..row])[(row, col) := Trim(last.value)];
  }

  /** RowsCells grows by one written row per input row. */
  lemma RowsCellsStep(start: nat, rows: seq<seq<Option<string>>>, i: nat)
    requires i < |rows|
    ensures RowsCells(start, rows[..i + 1]) == RowsCells(start, rows[..i]) + RowCells(start + i, rows[i])
  {
    var s := rows[..i + 1];
    assert s[..|s| - 1] == rows[..i];
    assert s[|s| - 1] == rows[i];
    assert RowsCells(start, s) == RowsCells(start, rows[..i]) + RowCells(start + i, rows[i]);
  }

  /** The value loop of updateRow and appendRow: save trimmed non-blank values along a row. */
  method WriteRow(g: Grid, row: nat, values: seq<Option<string>>) returns (h: Grid)
    ensures h == g + RowCells(row, values)
  {
    h := g;
    var col := 0;
    while col < |values|
      invariant 0 <= col <= |values|
      invariant h == g + RowCells(row, values[..col])
    {
      var value := values[col];
      RowCellsStep(row, values, col);
      if !Blank(value) {
        UnionUpdate(g, RowCells(row, values[..col]), (row, col), Trim(value.value));
        h := h[(row, col) := Trim(value.value)];
      }
      col := col + 1;
    }
    assert values[..col] == values;
  }

  /** The value loop of insertColumn: save trimmed non-blank values down a column. */
  method WriteColumn(g: Grid, col: nat, values: seq<Option<string>>) returns (h: Grid)
    ensures h == g + ColumnCells(col, values)
  {
    h := g;
    var row := 0;
    while row < |values|
      invariant 0 <= row <= |values|
      invariant h == g + ColumnCells(col, values[..row])
    {
      var value := values[row];
      ColumnCellsStep(col, values, row);
      if !Blank(value) {
        UnionUpdate(g, ColumnCells(col, values[..row]), (row, col), Trim(value.value));
        h := h[(row, col) := Trim(value.value)];
      }
      row := row + 1;
    }
    assert values[..row] == values;
  }

  /** The loops of appendMultipleRows: input row i is written at start + i; the count is returned. */
  method WriteRows(g: Grid, start: nat, rows: seq<seq<Option<string>>>) returns (h: Grid, appended: nat)
    ensures h == g + RowsCells(start, rows)
    ensures appended == |rows|
  {
    h := g;
    appended := 0;
    while appended < |rows|
      invariant 0 <= appended <= |rows|
      invariant h == g + RowsCells(start, rows[..appended])
    {
      var written, next := RowsCells(start, rows[..appended]), RowCells(start + appended, rows[appended]);
      RowsCellsStep(start, rows, appended);
      UnionAssoc(g, written, next);
      h := WriteRow(h, start + appended, rows[appended]);
      assert h == g + (written + next);
      appended := appended + 1;
    }
    assert rows[..appended] == rows;
  }

  /** The clearing step of updateRow: the cells findBySheetAndRowIndex finds are removed. */
  method ClearRow(g: Grid, row: nat) returns (h: Grid)
    ensures h == WithoutRow(g, row)
  {
    var existing := FindByRowIndex(g, row);
    h := g - existing.Keys;
    SameCells(h, WithoutRow(g, row));
  }

  /** updateRow: clear the row, then save the trimmed non-blank values along it. */
  method ReplaceRowCells(g: Grid, row: nat, values: seq<Option<string>>) returns (h: Grid)
    ensures h == ReplaceRow(g, row, values)
  {
    var cleared := ClearRow(g, row);
    h := WriteRow(cleared, row, values);
  }

  /** appendRow: take one past the largest row index (0 if none) and write the values there. */
  method AppendRowCells(g: Grid, values: seq<Option<string>>) returns (h: Grid, newRow: nat)
    ensures newRow == NextRow(g)
    ensures h == AppendRow(g, values)
  {
    var maxRow := FindMaxRowIndex(g);
    newRow := if maxRow.Some? then maxRow.value + 1 else 0;
    h := WriteRow(g, newRow, values);
  }

  /** appendMultipleRows: input row i goes to NextRow(g) + i; the number of input rows is returned. */
  method AppendRowsCells(g: Grid, rows: seq<seq<Option<string>>>) returns (h: Grid, appended: nat)
    ensures h == AppendRows(g, rows)
    ensures appended == |rows|
  {
    var maxRow := FindMaxRowIndex(g);
    var start := if maxRow.Some? then maxRow.value + 1 else 0;
    assert start == NextRow(g);
    h, appended := WriteRows(g, start, rows);
  }

  /** The cells outside rows start .. start+count-1. */
  function WithoutRows(g: Grid, start: nat, count: nat): (r: Grid)
    ensures forall a {:trigger a in r} :: a in r <==> a in g && !(start <= a.0 < start + count)
    ensures forall a :: a in r ==> r[a] == g[a]
  {
    map a {:trigger a in g} | a in g && !(start <= a.0 < start + count) :: g[a]
  }

  /** The deletion loop of deleteRows: the cells of rows start .. start+count-1 are removed. */
  method ClearRows(g: Grid, start: nat, count: nat) returns (h: Grid)
    ensures h == WithoutRows(g, start, count)
  {
    h := g;
    var i := 0;
    while i < count
      invariant 0 <= i <= count
      invariant h == WithoutRows(g, start, i)
    {
      var doomed := FindByRowIndex(h, start + i);
      h := h - doomed.Keys;
      i := i + 1;
    }
  }

  // ---------------------------------------------------------------- the three shifting edits

  /** deleteRows never collides: the rows below the cleared block move up into free space. */
  lemma RowsBelowMoveFreely(g: Grid, start: nat, count: nat)
    ensures Movable(FindByRowIndexGreaterThan(WithoutRows(g, start, count), start + count - 1), RowsUp(count), 0)
    ensures NoCollision(WithoutRows(g, start, count),
                        FindByRowIndexGreaterThan(WithoutRows(g, start, count), start + count - 1), RowsUp(count), 0)
  {
    var cleared := WithoutRows(g, start, count);
    var below := FindByRowIndexGreaterThan(cleared, start + count - 1);
    forall a | a in below
      ensures Target(a, RowsUp(count), 0) !in cleared - below.Keys
    {
      var t := Target(a, RowsUp(count), 0);
      if t in cleared {
        assert t in below;
      }
    }
  }

  /**
   * Once the block is cleared, the query for the rows below it finds the same cells as on the
   * original grid, and what it does not find are the rows above the block.
   */
  lemma ClearedRowsSplit(g: Grid, start: nat, count: nat)
    ensures FindByRowIndexGreaterThan(WithoutRows(g, start, count), start + count - 1) ==
            FindByRowIndexGreaterThan(g, start + count - 1)
    ensures WithoutRows(g, start, count) - FindByRowIndexGreaterThan(g, start + count - 1).Keys == Above(g, start)
  {
    var cleared := WithoutRows(g, start, count);
    var below := FindByRowIndexGreaterThan(g, start + count - 1);
    SameCells(FindByRowIndexGreaterThan(cleared, start + count - 1), below);
    SameCells(cleared - below.Keys, Above(g, start));
  }

  /** deleteRows is the block move of the rows below the cleared block. */
  lemma DeleteRowsIsMove(g: Grid, start: nat, count: nat)
    ensures Movable(FindByRowIndexGreaterThan(WithoutRows(g, start, count), start + count - 1), RowsUp(count), 0)
    ensures DeleteRows(g, start, count) ==
              AfterMove(WithoutRows(g, start, count),
                        FindByRowIndexGreaterThan(WithoutRows(g, start, count), start + count - 1), RowsUp(count), 0)
  {
    RowsBelowMoveFreely(g, start, count);
    ClearedRowsSplit(g, start, count);
  }

  /** deleteRows loses no cell outside the deleted rows: it keeps as many cells as they hold. */
  lemma DeleteRowsCount(g: Grid, start: nat, count: nat)
    ensures |DeleteRows(g, start, count)| == |WithoutRows(g, start, count)|
  {
    DeleteRowsIsMove(g, start, count);
    RowsBelowMoveFreely(g, start, count);
    var cleared := WithoutRows(g, start, count);
    MoveKeepsCount(cleared, FindByRowIndexGreaterThan(cleared, start + count - 1), RowsUp(count), 0);
  }

  /** deleteRows: clear the block, then move the rows below it up by `count`. */
  method DeleteRowBlock(g: Grid, start: nat, count: nat) returns (h: Grid)
    ensures h == DeleteRows(g, start, count)
  {
    var cleared := ClearRows(g, start, count);
    var below := FindByRowIndexGreaterThan(cleared, start + count - 1);
    RowsBelowMoveFreely(g, start, count);
    DeleteRowsIsMove(g, start, count);
    h := MoveCells(cleared, below, RowsUp(count), 0);
  }

  /** insertColumn never collides: the cells in and right of the column move into free space. */
  lemma ColumnsMoveRightFreely(g: Grid, col: nat)
    ensures Movable(FindByColumnIndexGreaterThanEqual(g, col), 0, 1)
    ensures NoCollision(g, FindByColumnIndexGreaterThanEqual(g, col), 0, 1)
  {
    var right := FindByColumnIndexGreaterThanEqual(g, col);
    forall a | a in right
      ensures Target(a, 0, 1) !in g - right.Keys
    {
      var t := Target(a, 0, 1);
      if t in g {
        assert t in right;
      }
    }
  }

  /** The first phase of insertColumn is the block move of the cells in and right of the column. */
  lemma ShiftRightIsMove(g: Grid, col: nat)
    ensures Movable(FindByColumnIndexGreaterThanEqual(g, col), 0, 1)
    ensures ShiftRight(g, col) == AfterMove(g, FindByColumnIndexGreaterThanEqual(g, col), 0, 1)
  {
    ColumnsCanMoveRight(g, col);
    SameCells(g - FindByColumnIndexGreaterThanEqual(g, col).Keys, LeftOf(g, col));
  }

  /** insertColumn keeps every existing cell and adds the written ones. */
  lemma ShiftRightCount(g: Grid, col: nat)
    ensures |ShiftRight(g, col)| == |g|
  {
    ColumnsMoveRightFreely(g, col);
    ShiftRightIsMove(g, col);
    MoveKeepsCount(g, FindByColumnIndexGreaterThanEqual(g, col), 0, 1);
  }

  /** insertColumn: move every cell in or right of `col` one to the right, then write the column. */
  method InsertColumnCells(g: Grid, col: nat, values: seq<Option<string>>) returns (h: Grid)
    ensures h == InsertColumn(g, col, values)
  {
    var right := FindByColumnIndexGreaterThanEqual(g, col);
    ColumnsMoveRightFreely(g, col);
    ShiftRightIsMove(g, col);
    var shifted := MoveCells(g, right, 0, 1);
    h := WriteColumn(shifted, col, values);
  }

  /** The cells outside one column. */
  function WithoutColumn(g: Grid, col: nat): (r: Grid)
    ensures forall a {:trigger a in r} :: a in r <==> a in g && a.1 != col
    ensures forall a :: a in r ==> r[a] == g[a]
  {
    map a {:trigger a in g} | a in g && a.1 != col :: g[a]
  }

  /** The deletion step of deleteColumn: the cells of the column are removed at once. */
  method ClearColumn(g: Grid, col: nat) returns (h: Grid)
    ensures h == WithoutColumn(g, col)
    ensures h.Keys == g.Keys - FindByColumnIndex(g, col).Keys
  {
    var doomed := FindByColumnIndex(g, col);
    h := g - doomed.Keys;
    assert h.Keys == WithoutColumn(g, col).Keys;
  }

  /** deleteColumn never collides: the cells right of the cleared column move into free space. */
  lemma ColumnsMoveLeftFreely(g: Grid, col: nat)
    ensures Movable(FindByColumnIndexGreaterThan(WithoutColumn(g, col), col), 0, -1)
    ensures NoCollision(WithoutColumn(g, col),
                        FindByColumnIndexGreaterThan(WithoutColumn(g, col), col), 0, -1)
  {
    var cleared := WithoutColumn(g, col);
    var right := FindByColumnIndexGreaterThan(cleared, col);
    forall a | a in right
      ensures Target(a, 0, -1) !in cleared - right.Keys
    {
      var t := Target(a, 0, -1);
      if t in cleared {
        assert t.1 != col;
        assert t in right;
      }
    }
  }

  /**
   * Once the column is cleared, the query for the cells right of it finds the same cells as on
   * the original grid, and what it does not find are the cells left of the column.
   */
  lemma ClearedColumnSplit(g: Grid, col: nat)
    ensures FindByColumnIndexGreaterThan(WithoutColumn(g, col), col) == FindByColumnIndexGreaterThan(g, col)
    ensures WithoutColumn(g, col) - FindByColumnIndexGreaterThan(g, col).Keys == LeftOf(g, col)
  {
    var cleared := WithoutColumn(g, col);
    var right := FindByColumnIndexGreaterThan(g, col);
    SameCells(FindByColumnIndexGreaterThan(cleared, col), right);
    SameCells(cleared - right.Keys, LeftOf(g, col));
  }

  /** deleteColumn is the block move of the cells right of the cleared column. */
  lemma DeleteColumnIsMove(g: Grid, col: nat)
    ensures Movable(FindByColumnIndexGreaterThan(WithoutColumn(g, col), col), 0, -1)
    ensures DeleteColumn(g, col) ==
              AfterMove(WithoutColumn(g, col),
                        FindByColumnIndexGreaterThan(WithoutColumn(g, col), col), 0, -1)
  {
    ColumnsMoveLeftFreely(g, col);
    ClearedColumnSplit(g, col);
  }

  /** Clearing a column removes exactly the cells the column query finds. */
  lemma WithoutColumnCount(g: Grid, col: nat)
    ensures |WithoutColumn(g, col)| == |g| - |FindByColumnIndex(g, col)|
  {
    var doomed := FindByColumnIndex(g, col);
    SameCells(WithoutColumn(g, col), g - doomed.Keys);
    RemoveKeysSize(g, doomed.Keys);
  }

  /** deleteColumn removes exactly the cells of the column; every other cell survives. */
  lemma DeleteColumnCount(g: Grid, col: nat)
    ensures |DeleteColumn(g, col)| == |g| - |FindByColumnIndex(g, col)|
  {
    ColumnsMoveLeftFreely(g, col);
    DeleteColumnIsMove(g, col);
    var cleared := WithoutColumn(g, col);
    MoveKeepsCount(cleared, FindByColumnIndexGreaterThan(cleared, col), 0, -1);
    WithoutColumnCount(g, col);
  }

  /** deleteColumn: clear the column, then move every cell right of it one to the left. */
  method DeleteColumnCells(g: Grid, col: nat) returns (h: Grid)
    ensures h == DeleteColumn(g, col)
  {
    var cleared := ClearColumn(g, col);
    var right := FindByColumnIndexGreaterThan(cleared, col);
    ColumnsMoveLeftFreely(g, col);
    DeleteColumnIsMove(g, col);
    h := MoveCells(cleared, right, 0, -1);
  }
}
