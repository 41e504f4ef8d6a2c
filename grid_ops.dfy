/**
 * Reference definitions of what each structural edit of the osivia SpreadsheetService does to a
 * sheet's grid, and the properties the service promises about them. The service methods are
 * proved to produce exactly these grids.
 */
module GridOps {
  import opened Wrappers
  import opened CellRepository

  // ---------------------------------------------------------------- String.trim and blankness

  /** String.trim strips every leading and trailing character at or below U+0020. */
  predicate IsTrimmed(c: char)
  {
    c <= ' '
  }

  function TrimStart(s: string): string
  {
    if s != [] && IsTrimmed(s[0]) then TrimStart(s[1..]) else s
  }

  function TrimEnd(s: string): string
  {
    if s != [] && IsTrimmed(s[|s| - 1]) then TrimEnd(s[..|s| - 1]) else s
  }

  /** String.trim. */
  function Trim(s: string): string
  {
    TrimEnd(TrimStart(s))
  }

  /** TrimStart drops a prefix of trimmed characters and stops at the first kept one. */
  lemma {:induction false} TrimStartShape(s: string)
    ensures var r := TrimStart(s);
            |r| <= |s| && r == s[|s| - |r|..] &&
            (r == [] || !IsTrimmed(r[0])) &&
            forall i :: 0 <= i < |s| - |r| ==> IsTrimmed(s[i])
    decreases |s|
  {
    if s != [] && IsTrimmed(s[0]) {
      TrimStartShape(s[1..]);
      var r := TrimStart(s[1..]);
      assert s[1..][|s| - 1 - |r|..] == s[|s| - |r|..];
      forall i | 1 <= i < |s| - |r|
        ensures IsTrimmed(s[i])
      {
        assert s[i] == s[1..][i - 1];
      }
    }
  }

  /** TrimEnd drops a suffix of trimmed characters and stops at the last kept one. */
  lemma {:induction false} TrimEndShape(s: string)
    ensures var r := TrimEnd(s);
            |r| <= |s| && r == s[..|r|] &&
            (r == [] || !IsTrimmed(r[|r| - 1])) &&
            forall i :: |r| <= i < |s| ==> IsTrimmed(s[i])
    decreases |s|
  {
    if s != [] && IsTrimmed(s[|s| - 1]) {
      var init := s[..|s| - 1];
      TrimEndShape(init);
      var r := TrimEnd(init);
      assert init[..|r|] == s[..|r|];
      forall i | |r| <= i < |s| - 1
        ensures IsTrimmed(s[i])
      {
        assert s[i] == init[i];
      }
    }
  }

  /** A string of trimmed characters only trims away entirely. */
  lemma {:induction false} TrimStartAll(s: string)
    requires forall i :: 0 <= i < |s| ==> IsTrimmed(s[i])
    ensures TrimStart(s) == []
    decreases |s|
  {
    if s != [] {
      assert forall i :: 0 <= i < |s[1..]| ==> s[1..][i] == s[i + 1];
      TrimStartAll(s[1..]);
    }
  }

  /** A string trims to "" exactly when all of its characters are trimmed away. */
  lemma TrimEmptyIff(s: string)
    ensures Trim(s) == [] <==> forall i :: 0 <= i < |s| ==> IsTrimmed(s[i])
  {
    var t := TrimStart(s);
    TrimStartShape(s);
    TrimEndShape(t);
    if forall i :: 0 <= i < |s| ==> IsTrimmed(s[i]) {
      TrimStartAll(s);
    }
  }

  /** A trimmed non-empty string starts and ends with a kept character. */
  lemma TrimEnds(s: string)
    ensures Trim(s) != [] ==> !IsTrimmed(Trim(s)[0]) && !IsTrimmed(Trim(s)[|Trim(s)| - 1])
  {
    var t := TrimStart(s);
    TrimStartShape(s);
    TrimEndShape(t);
    var r := TrimEnd(t);
    if r != [] {
      assert r[0] == t[0];
    }
  }

  /** Trimming a trimmed string changes nothing. */
  lemma TrimIsIdempotent(s: string)
    ensures Trim(Trim(s)) == Trim(s)
  {
    var r := Trim(s);
    TrimEnds(s);
    if r != [] {
      assert TrimStart(r) == r;
      assert TrimEnd(r) == r;
    }
  }

  /** The test the row and column writers apply: `value == null || value.trim().isEmpty()`. */
  predicate Blank(v: Option<string>)
  {
    v.None? || Trim(v.value) == []
  }

  // ---------------------------------------------------------------- updateCells

  /** One entry of an updateCells batch (CellDTO): a null value is None. */
  datatype CellUpdate = CellUpdate(row: nat, col: nat, value: Option<string>)

  /** updateCells deletes on `value == null || value.isEmpty()`: no trimming. */
  predicate Clears(u: CellUpdate)
  {
    u.value.None? || u.value.value == []
  }

  /** What one entry does: delete (a no-op if absent) or upsert the exact value. */
  function UpdateCell(g: Grid, u: CellUpdate): (r: Grid)
    ensures Clears(u) ==> (u.row, u.col) !in r
    ensures !Clears(u) ==> (u.row, u.col) in r && r[(u.row, u.col)] == u.value.value
    ensures forall a :: a != (u.row, u.col) ==> (a in r <==> a in g)
    ensures forall a :: a != (u.row, u.col) && a in r ==> r[a] == g[a]
  {
    if Clears(u) then g - {(u.row, u.col)} else g[(u.row, u.col) := u.value.value]
  }

  /** updateCells: the entries applied one after another, in list order. */
  function UpdateCells(g: Grid, us: seq<CellUpdate>): Grid
    decreases |us|
  {
    if us == [] then g else UpdateCell(UpdateCells(g, us[..|us| - 1]), us[|us| - 1])
  }

  /** The position of the last entry of the batch that addresses `a`. */
  function LastWriteTo(us: seq<CellUpdate>, a: Addr): (r: Option<nat>)
    ensures r.Some? ==> r.value < |us| && (us[r.value].row, us[r.value].col) == a
    ensures r.Some? ==> forall j :: r.value < j < |us| ==> (us[j].row, us[j].col) != a
    ensures r.None? ==> forall j :: 0 <= j < |us| ==> (us[j].row, us[j].col) != a
  {
    if us == [] then None
    else if (us[|us| - 1].row, us[|us| - 1].col) == a then Some(|us| - 1)
    else LastWriteTo(us[..|us| - 1], a)
  }

  /**
   * Last write wins: after a batch, an address holds what its last entry wrote (or nothing, if
   * that entry was null or empty); an address no entry names is unchanged.
   */
  lemma {:induction false} LastWriteWins(g: Grid, us: seq<CellUpdate>, a: Addr)
    ensures LastWriteTo(us, a).None? ==>
              (a in UpdateCells(g, us) <==> a in g) && (a in g ==> UpdateCells(g, us)[a] == g[a])
    ensures LastWriteTo(us, a).Some? && Clears(us[LastWriteTo(us, a).value]) ==>
              a !in UpdateCells(g, us)
    ensures LastWriteTo(us, a).Some? && !Clears(us[LastWriteTo(us, a).value]) ==>
              a in UpdateCells(g, us) && UpdateCells(g, us)[a] == us[LastWriteTo(us, a).value].value.value
    decreases |us|
  {
    if us != [] {
      var init := us[..|us| - 1];
      LastWriteWins(g, init, a);
      if (us[|us| - 1].row, us[|us| - 1].col) != a {
        assert LastWriteTo(us, a) == LastWriteTo(init, a);
        var k := LastWriteTo(init, a);
        if k.Some? {
          assert us[k.value] == init[k.value];
        }
      }
    }
  }

  /** A batch never stores an empty value, so the grid stays sparse. */
  lemma {:induction false} UpdatesKeepSparse(g: Grid, us: seq<CellUpdate>)
    requires Sparse(g)
    ensures Sparse(UpdateCells(g, us))
    decreases |us|
  {
    if us != [] {
      UpdatesKeepSparse(g, us[..|us| - 1]);
    }
  }

  /** Values are stored untrimmed: a whitespace-only value is a cell of its own. */
  lemma WhitespaceIsStored(g: Grid, row: nat, col: nat)
    ensures UpdateCells(g, [CellUpdate(row, col, Some(" "))]) == g[(row, col) := " "]
  {
    assert [CellUpdate(row, col, Some(" "))][..0] == [];
  }

  // ---------------------------------------------------------------- rows and columns of values

  /** The cells a list of values writes into one row: trimmed, non-blank values only. */
  function RowCells(row: nat, values: seq<Option<string>>): (r: Grid)
    ensures forall a :: a in r <==> a.0 == row && a.1 < |values| && !Blank(values[a.1])
    ensures forall a :: a in r ==> values[a.1].Some? && r[a] == Trim(values[a.1].value)
    decreases |values|
  {
    if values == [] then map[]
    else
      var init := RowCells(row, values[..|values| - 1]);
      var last := values[|values| - 1];
      assert forall i :: 0 <= i < |values| - 1 ==> values[..|values| - 1][i] == values[i];
      if Blank(last) then init else init[(row, |values| - 1) := Trim(last.value)]
  }

  /** The cells a list of values writes into one column: trimmed, non-blank values only. */
  function ColumnCells(col: nat, values: seq<Option<string>>): (r: Grid)
    ensures forall a :: a in r <==> a.1 == col && a.0 < |values| && !Blank(values[a.0])
    ensures forall a :: a in r ==> values[a.0].Some? && r[a] == Trim(values[a.0].value)
    decreases |values|
  {
    if values == [] then map[]
    else
      var init := ColumnCells(col, values[..|values| - 1]);
      var last := values[|values| - 1];
      assert forall i :: 0 <= i < |values| - 1 ==> values[..|values| - 1][i] == values[i];
      if Blank(last) then init else init[(|values| - 1, col) := Trim(last.value)]
  }

  /** Trimmed non-blank values are never empty: the written cells keep the grid sparse. */
  lemma WrittenCellsAreSparse(row: nat, col: nat, values: seq<Option<string>>)
    ensures Sparse(RowCells(row, values))
    ensures Sparse(ColumnCells(col, values))
  {
  }

  // ---------------------------------------------------------------- updateRow

  /** All cells outside one row. */
  function WithoutRow(g: Grid, row: nat): (r: Grid)
    ensures forall a {:trigger a in r} :: a in r <==> a in g && a.0 != row
    ensures forall a :: a in r ==> r[a] == g[a]
  {
    map a {:trigger a in g} | a in g && a.0 != row :: g[a]
  }

  /** updateRow: the row is cleared and then receives the trimmed non-blank values. */
  function ReplaceRow(g: Grid, row: nat, values: seq<Option<string>>): (r: Grid)
    ensures forall a: Addr {:trigger a in r} {:trigger a in g} :: a.0 == row ==>
              (a in r <==> a.1 < |values| && !Blank(values[a.1])) &&
              (a in r ==> r[a] == Trim(values[a.1].value))
    ensures forall a: Addr {:trigger a in r} {:trigger a in g} :: a.0 != row ==> (a in r <==> a in g) && (a in r ==> r[a] == g[a])
  {
    WithoutRow(g, row) + RowCells(row, values)
  }

  // ---------------------------------------------------------------- appendRow, appendMultipleRows

  /** The index appendRow assigns: one past the largest row in use, or 0 for an empty sheet. */
  function NextRow(g: Grid): (n: nat)
    ensures forall a {:trigger a in g} :: a in g ==> a.0 < n
    ensures g == map[] <==> n == 0
    ensures n > 0 ==> n - 1 in RowIndices(g)
  {
    match FindMaxRowIndex(g)
    case None => 0
    case Some(m) => m + 1
  }

  /** The largest row index is determined by the rows in use. */
  lemma {:induction false} NextRowFromMax(g: Grid, m: nat)
    requires m in RowIndices(g)
    requires forall a {:trigger a in g} :: a in g ==> a.0 <= m
    ensures NextRow(g) == m + 1
  {
    var n := NextRow(g);
    assert n - 1 in RowIndices(g);
    var b :| b in g && b.0 == n - 1;
    var c :| c in g && c.0 == m;
  }

  /** appendRow: the values written as row NextRow(g); nothing else changes. */
  function AppendRow(g: Grid, values: seq<Option<string>>): Grid
  {
    g + RowCells(NextRow(g), values)
  }

  /** Appending is replacing the first unused row. */
  lemma AppendIsReplaceOfNextRow(g: Grid, values: seq<Option<string>>)
    ensures AppendRow(g, values) == ReplaceRow(g, NextRow(g), values)
  {
    var n := NextRow(g);
    assert WithoutRow(g, n) == g;
  }

  /** An all-blank row writes nothing, so the next append gets the same index. */
  lemma BlankAppendKeepsIndex(g: Grid, values: seq<Option<string>>)
    requires forall i :: 0 <= i < |values| ==> Blank(values[i])
    ensures AppendRow(g, values) == g
    ensures NextRow(AppendRow(g, values)) == NextRow(g)
  {
    assert RowCells(NextRow(g), values) == map[];
  }

  /** A row with a non-blank value is appended at NextRow(g), and the next append follows it. */
  lemma {:induction false} AppendAdvancesIndex(g: Grid, values: seq<Option<string>>, k: nat)
    requires k < |values| && !Blank(values[k])
    ensures NextRow(AppendRow(g, values)) == NextRow(g) + 1
  {
    var n := NextRow(g);
    var h := AppendRow(g, values);
    assert (n, k) in h;
    assert n in RowIndices(h);
    NextRowFromMax(h, n);
  }

  /** The cells appendMultipleRows writes: input row i goes to row start + i. */
  function RowsCells(start: nat, rows: seq<seq<Option<string>>>): Grid
    decreases |rows|
  {
    if rows == [] then map[]
    else RowsCells(start, rows[..|rows| - 1]) + RowCells(start + |rows| - 1, rows[|rows| - 1])
  }

  /** Input row i's trimmed non-blank values, and nothing else, land on row start + i. */
  lemma {:induction false} RowsCellsMeaning(start: nat, rows: seq<seq<Option<string>>>)
    ensures forall a :: a in RowsCells(start, rows) <==>
              start <= a.0 < start + |rows| && a.1 < |rows[a.0 - start]| && !Blank(rows[a.0 - start][a.1])
    ensures forall a :: a in RowsCells(start, rows) ==>
              rows[a.0 - start][a.1].Some? && RowsCells(start, rows)[a] == Trim(rows[a.0 - start][a.1].value)
    decreases |rows|
  {
    if rows != [] {
      var n := |rows| - 1;
      var init := rows[..n];
      RowsCellsMeaning(start, init);
      var r0, last := RowsCells(start, init), RowCells(start + n, rows[n]);
      assert RowsCells(start, rows) == r0 + last;
      forall a: Addr
        ensures a in r0 + last <==>
                start <= a.0 < start + |rows| && a.1 < |rows[a.0 - start]| && !Blank(rows[a.0 - start][a.1])
      {
        if start <= a.0 < start + n {
          assert init[a.0 - start] == rows[a.0 - start];
        }
      }
      forall a: Addr | a in r0 + last
        ensures rows[a.0 - start][a.1].Some? && (r0 + last)[a] == Trim(rows[a.0 - start][a.1].value)
      {
        if a in last {
          assert a.0 - start == n;
          assert (r0 + last)[a] == last[a] == Trim(rows[n][a.1].value);
        } else {
          assert a in r0;
          assert init[a.0 - start] == rows[a.0 - start];
          assert (r0 + last)[a] == r0[a] == Trim(init[a.0 - start][a.1].value);
        }
      }
    }
  }

  /** appendMultipleRows: every input row consumes one index, blank or not. */
  function AppendRows(g: Grid, rows: seq<seq<Option<string>>>): Grid
  {
    g + RowsCells(NextRow(g), rows)
  }

  /** A blank input row is skipped but still consumes its index. */
  lemma BlankRowConsumesIndex(g: Grid, blank: seq<Option<string>>, values: seq<Option<string>>, k: nat)
    requires forall i :: 0 <= i < |blank| ==> Blank(blank[i])
    requires k < |values| && !Blank(values[k])
    ensures (NextRow(g), k) !in AppendRows(g, [blank, values])
    ensures (NextRow(g) + 1, k) in AppendRows(g, [blank, values])
  {
    var rows := [blank, values];
    assert rows[0] == blank && rows[1] == values;
    RowsCellsMeaning(NextRow(g), rows);
    assert (NextRow(g), k) !in RowsCells(NextRow(g), rows);
  }

  /** The row writers store trimmed non-blank values only, so the grid stays sparse. */
  lemma RowWritesKeepSparse(g: Grid, row: nat, values: seq<Option<string>>, rows: seq<seq<Option<string>>>)
    requires Sparse(g)
    ensures Sparse(ReplaceRow(g, row, values))
    ensures Sparse(AppendRow(g, values))
    ensures Sparse(AppendRows(g, rows))
  {
    WrittenCellsAreSparse(row, 0, values);
    WrittenCellsAreSparse(NextRow(g), 0, values);
    UnionKeepsSparse(WithoutRow(g, row), RowCells(row, values));
    UnionKeepsSparse(g, RowCells(NextRow(g), values));
    var r := RowsCells(NextRow(g), rows);
    RowsCellsMeaning(NextRow(g), rows);
    assert Sparse(r) by {
      forall a | a in r
        ensures r[a] != ""
      {
      }
    }
    UnionKeepsSparse(g, r);
  }

  /** Two sparse grids make a sparse grid. */
  lemma UnionKeepsSparse(x: Grid, y: Grid)
    requires Sparse(x) && Sparse(y)
    ensures Sparse(x + y)
  {
  }

  // ---------------------------------------------------------------- translating a block of cells

  /** Every cell of `m` can be moved by (dRow, dCol) without leaving the sheet. */
  predicate Movable(m: Grid, dRow: int, dCol: int)
  {
    forall a {:trigger a in m} :: a in m ==> a.0 + dRow >= 0 && a.1 + dCol >= 0
  }

  /** Where a moved cell lands. */
  function Target(a: Addr, dRow: int, dCol: int): Addr
    requires a.0 + dRow >= 0 && a.1 + dCol >= 0
  {
    (a.0 + dRow, a.1 + dCol)
  }

  /** Where a cell found at `b` after the move came from. */
  function Source(b: Addr, dRow: int, dCol: int): Addr
    requires b.0 - dRow >= 0 && b.1 - dCol >= 0
  {
    (b.0 - dRow, b.1 - dCol)
  }

  /** The block `m` with every cell given a new index: row + dRow, column + dCol. */
  function Translate(m: Grid, dRow: int, dCol: int): Grid
    requires Movable(m, dRow, dCol)
  {
    map a {:trigger a in m} | a in m :: Target(a, dRow, dCol) := m[a]
  }

  /** What the translated block holds at every address. */
  lemma TranslateAt(m: Grid, dRow: int, dCol: int, b: Addr)
    requires Movable(m, dRow, dCol)
    ensures b in Translate(m, dRow, dCol) <==>
              b.0 - dRow >= 0 && b.1 - dCol >= 0 && Source(b, dRow, dCol) in m
    ensures b in Translate(m, dRow, dCol) ==>
              b.0 - dRow >= 0 && b.1 - dCol >= 0 && Translate(m, dRow, dCol)[b] == m[Source(b, dRow, dCol)]
  {
    if b.0 - dRow >= 0 && b.1 - dCol >= 0 && Source(b, dRow, dCol) in m {
      var a := Source(b, dRow, dCol);
      assert Target(a, dRow, dCol) == b;
    }
  }

  /** The cells left of a column: the ones insertColumn and deleteColumn leave in place. */
  function LeftOf(g: Grid, col: nat): (r: Grid)
    ensures forall a {:trigger a in r} :: a in r <==> a in g && a.1 < col
    ensures forall a :: a in r ==> r[a] == g[a]
  {
    map a {:trigger a in g} | a in g && a.1 < col :: g[a]
  }

  /** The cells above a row: the ones deleteRows leaves in place. */
  function Above(g: Grid, row: nat): (r: Grid)
    ensures forall a {:trigger a in r} :: a in r <==> a in g && a.0 < row
    ensures forall a :: a in r ==> r[a] == g[a]
  {
    map a {:trigger a in g} | a in g && a.0 < row :: g[a]
  }

  // ---------------------------------------------------------------- deleteRows

  /** The row offset that moves a cell up by `count` rows. */
  function RowsUp(count: nat): int
  {
    -(count as int)
  }

  /** The rows below a deleted block can move up by its height. */
  lemma RowsBelowCanMoveUp(g: Grid, start: nat, count: nat)
    ensures Movable(FindByRowIndexGreaterThan(g, start + count - 1), RowsUp(count), 0)
  {
  }

  /**
   * deleteRows(start, count): the cells in rows start .. start+count-1 go, and every cell below
   * them (the rows findBySheetAndRowIndexGreaterThan(start + count - 1) finds) moves up by count.
   */
  function DeleteRows(g: Grid, start: nat, count: nat): Grid
  {
    RowsBelowCanMoveUp(g, start, count);
    Above(g, start) + Translate(FindByRowIndexGreaterThan(g, start + count - 1), RowsUp(count), 0)
  }

  /** Where every cell of the result comes from; nothing else is in it. */
  lemma DeleteRowsAt(g: Grid, start: nat, count: nat, a: Addr)
    ensures a.0 < start ==> (a in DeleteRows(g, start, count) <==> a in g)
    ensures a.0 >= start ==> (a in DeleteRows(g, start, count) <==> (a.0 + count, a.1) in g)
    ensures a in DeleteRows(g, start, count) ==>
              DeleteRows(g, start, count)[a] == if a.0 < start then g[a] else g[(a.0 + count, a.1)]
  {
    var below := FindByRowIndexGreaterThan(g, start + count - 1);
    RowsBelowCanMoveUp(g, start, count);
    TranslateAt(below, RowsUp(count), 0, a);
    if a.0 >= start {
      assert Source(a, RowsUp(count), 0) == (a.0 + count, a.1);
    }
  }

  /** Deleting no rows changes nothing. */
  lemma DeleteNoRows(g: Grid, start: nat)
    ensures DeleteRows(g, start, 0) == g
  {
    var r := DeleteRows(g, start, 0);
    forall a
      ensures (a in r <==> a in g) && (a in r ==> r[a] == g[a])
    {
      DeleteRowsAt(g, start, 0, a);
    }
    SameCells(r, g);
  }

  // ---------------------------------------------------------------- insertColumn, deleteColumn

  /** The cells in or right of a column can move one column to the right. */
  lemma ColumnsCanMoveRight(g: Grid, col: nat)
    ensures Movable(FindByColumnIndexGreaterThanEqual(g, col), 0, 1)
  {
  }

  /** The cells right of a column can move one column to the left. */
  lemma ColumnsCanMoveLeft(g: Grid, col: nat)
    ensures Movable(FindByColumnIndexGreaterThan(g, col), 0, -1)
  {
  }

  /** The first phase of insertColumn: every cell in or right of `col` moves one to the right. */
  function ShiftRight(g: Grid, col: nat): Grid
  {
    ColumnsCanMoveRight(g, col);
    LeftOf(g, col) + Translate(FindByColumnIndexGreaterThanEqual(g, col), 0, 1)
  }

  /** insertColumn(col, values): shift, then write the trimmed non-blank values into `col`. */
  function InsertColumn(g: Grid, col: nat, values: seq<Option<string>>): Grid
  {
    ShiftRight(g, col) + ColumnCells(col, values)
  }

  /** deleteColumn(col): the column goes and every cell right of it moves one to the left. */
  function DeleteColumn(g: Grid, col: nat): Grid
  {
    ColumnsCanMoveLeft(g, col);
    LeftOf(g, col) + Translate(FindByColumnIndexGreaterThan(g, col), 0, -1)
  }

  /** Where every cell of the shifted grid comes from; nothing else is in it. */
  lemma ShiftRightAt(g: Grid, col: nat, a: Addr)
    ensures a.1 < col ==> (a in ShiftRight(g, col) <==> a in g)
    ensures a.1 == col ==> a !in ShiftRight(g, col)
    ensures a.1 > col ==> (a in ShiftRight(g, col) <==> (a.0, a.1 - 1) in g)
    ensures a in ShiftRight(g, col) ==>
              ShiftRight(g, col)[a] == if a.1 < col then g[a] else g[(a.0, a.1 - 1)]
  {
    var right := FindByColumnIndexGreaterThanEqual(g, col);
    ColumnsCanMoveRight(g, col);
    TranslateAt(right, 0, 1, a);
    if a.1 >= 1 {
      assert Source(a, 0, 1) == (a.0, a.1 - 1);
    }
  }

  /** Where every cell of insertColumn's result comes from; nothing else is in it. */
  lemma InsertColumnAt(g: Grid, col: nat, values: seq<Option<string>>, a: Addr)
    ensures a.1 < col ==> (a in InsertColumn(g, col, values) <==> a in g)
    ensures a.1 == col ==> (a in InsertColumn(g, col, values) <==> a.0 < |values| && !Blank(values[a.0]))
    ensures a.1 > col ==> (a in InsertColumn(g, col, values) <==> (a.0, a.1 - 1) in g)
    ensures a in InsertColumn(g, col, values) && a.1 < col ==> InsertColumn(g, col, values)[a] == g[a]
    ensures a in InsertColumn(g, col, values) && a.1 == col ==>
              values[a.0].Some? && InsertColumn(g, col, values)[a] == Trim(values[a.0].value)
    ensures a in InsertColumn(g, col, values) && a.1 > col ==> InsertColumn(g, col, values)[a] == g[(a.0, a.1 - 1)]
  {
    ShiftRightAt(g, col, a);
  }

  /** Where every cell of deleteColumn's result comes from; nothing else is in it. */
  lemma DeleteColumnAt(g: Grid, col: nat, a: Addr)
    ensures a.1 < col ==> (a in DeleteColumn(g, col) <==> a in g)
    ensures a.1 >= col ==> (a in DeleteColumn(g, col) <==> (a.0, a.1 + 1) in g)
    ensures a in DeleteColumn(g, col) ==>
              DeleteColumn(g, col)[a] == if a.1 < col then g[a] else g[(a.0, a.1 + 1)]
  {
    var right := FindByColumnIndexGreaterThan(g, col);
    ColumnsCanMoveLeft(g, col);
    TranslateAt(right, 0, -1, a);
    assert Source(a, 0, -1) == (a.0, a.1 + 1);
  }

  /** The shifting edits move stored values without changing them, so the grid stays sparse. */
  lemma ShiftsKeepSparse(g: Grid, start: nat, count: nat, col: nat, values: seq<Option<string>>)
    requires Sparse(g)
    ensures Sparse(DeleteRows(g, start, count))
    ensures Sparse(InsertColumn(g, col, values))
    ensures Sparse(DeleteColumn(g, col))
  {
    forall a | a in DeleteRows(g, start, count)
      ensures DeleteRows(g, start, count)[a] != ""
    {
      DeleteRowsAt(g, start, count, a);
    }
    forall a | a in InsertColumn(g, col, values)
      ensures InsertColumn(g, col, values)[a] != ""
    {
      InsertColumnAt(g, col, values, a);
    }
    forall a | a in DeleteColumn(g, col)
      ensures DeleteColumn(g, col)[a] != ""
    {
      DeleteColumnAt(g, col, a);
    }
  }

  /** Inserting a column and deleting it again restores the original grid. */
  lemma InsertThenDeleteColumn(g: Grid, col: nat, values: seq<Option<string>>)
    ensures DeleteColumn(InsertColumn(g, col, values), col) == g
  {
    var h := InsertColumn(g, col, values);
    var r := DeleteColumn(h, col);
    forall a
      ensures (a in r <==> a in g) && (a in r ==> r[a] == g[a])
    {
      DeleteColumnAt(h, col, a);
      InsertColumnAt(g, col, values, a);
      InsertColumnAt(g, col, values, (a.0, a.1 + 1));
    }
    SameCells(r, g);
  }
}
