# spreadsheet-api core in Dafny

This project models the core of the spreadsheet-api service. Users own spreadsheets. A
spreadsheet holds an ordered list of sheets, and each sheet holds a sparse grid of cells,
addressed by (row index, column index). Other users get access to a spreadsheet through
permission records at three levels: VIEW, EDIT and ADMIN.

The model covers the following:

- **The permission gate.** This is `checkPermission`, together with the copies of the same rules
  that MediaService inlines for media upload, download and delete.
- **The lifecycle operations of SpreadsheetService.**
  - Creating spreadsheets and sheets.
  - Listing a user's spreadsheets.
  - Deleting a spreadsheet together with its sheets, grids and records.
  - Granting and revoking permissions.
  - Deleting a sheet, which renumbers the remaining sheets.
- **The grid edits.** These are `updateCells`, `updateRow`, `appendRow`, `appendMultipleRows`,
  `deleteRows`, `insertColumn` and `deleteColumn`. Each one is stated as a reference function
  on the grid (module GridOps), and the loop the service runs is proved to produce it (module
  GridWriter).
- **The CellRepository queries** that the edits use, as filters on the grid.
- **The ZIP export and import of ZipExportImportService.**
  - The CSV file names.
  - The CSV text of a sheet and the cells read back from it.
  - The metadata entries.
  - The ordering of imported sheets and the naming of imported media.
  - The export/import round trip of the sheets.

The service is a class. Its fields are the registered users, the spreadsheets, the sheets, one
grid per sheet, the permission records and the next id to hand out. Every operation keeps the
class invariant `Valid()`:

- each spreadsheet lists its sheets with orderIndex equal to their position;
- every sheet is listed by its spreadsheet;
- each sheet has one sparse grid;
- ids are fresh;
- owners are users;
- records name an existing spreadsheet and a non-owner user.

An operation that fails leaves the state unchanged.

The error outcomes map onto the source's exceptions as follows:

| Error | Source exception |
|---|---|
| `NotFound` | ResourceNotFoundException |
| `Unauthorized` | UnauthorizedException |
| `InvalidArgument` | IllegalArgumentException |
| `InvalidState` | IllegalStateException |
| `FormatError` | the import's RuntimeException for a missing metadata.json |
| `DuplicateEntry` | the failure ZipOutputStream raises for a second archive entry of one name |

The CSV reader that OpenCSV provides is modelled by an RFC 4180 style reader (module Csv):

- a quoted field may contain ',', '"' (doubled) and line ends;
- an unquoted '\r' or '\n' ends a record.

The module layout follows the source:

| module | models |
|---|---|
| `Wrappers`, `Errors` | outcomes and errors |
| `Permissions` | the gate and the record store |
| `MediaGuards` | MediaService |
| `CellRepository` | the cell queries |
| `GridOps` | reference grids of the edits |
| `GridWriter` | the service's loops over cells |
| `SheetOrder` | the stable sort of `updateSheetOrderIndices` |
| `Csv` | the writer's quoting and the reader |
| `Archive` | ZipExportImportService |
| `Service` | SpreadsheetService |

## Model

Source paths are relative to the repository root. The example copy of the service,
`src/main/java/com/example/spreadsheet/service/SpreadsheetService.java`, has the same code at
lines 52-203 and 293-320 as the osivia copy at lines 56-207 and 297-324, four lines earlier.
The two copies differ in package names and in one getter: the example copy deletes each media
file by `media.getFilePath()` (line 107) where the osivia copy uses `media.getFilename()` (line
111). That loop deletes backing files and is left out, so the rows for the osivia lines below
model the example copy as well.

| member | source | states |
|---|---|---|
| Permissions.CheckPermission | src/main/java/com/osivia/spreadsheet/api/service/SpreadsheetService.java:297-324 | checkPermission's decision chain in source order: the owner passes; an unknown user is NotFound; a missing record is Unauthorized; then the level test; its meaning is stated by GateMatchesRank, DecisionTable and RefusalsAreNotFoundOrUnauthorized |
| Permissions.GateMatchesRank | src/main/java/com/osivia/spreadsheet/api/service/SpreadsheetService.java:297-324 | checkPermission passes exactly the owner, or an existing user whose record ranks at least as high as the required level (VIEW < EDIT < ADMIN) |
| Permissions.Rank | src/main/java/com/osivia/spreadsheet/api/service/SpreadsheetService.java:313-323 | the levels read as a chain VIEW, EDIT, ADMIN, against which the gate is checked (GateMatchesRank); the chain's order is RankOrdersLevels |
| Permissions.RankOrdersLevels | src/main/java/com/osivia/spreadsheet/api/service/SpreadsheetService.java:313-323 | VIEW ranks below EDIT, EDIT below ADMIN, and no two levels share a rank |
| Permissions.OwnerAlwaysPasses | src/main/java/com/osivia/spreadsheet/api/service/SpreadsheetService.java:298-300 | the owner passes at every level, whatever records exist |
| Permissions.NoRecordIsUnauthorized | src/main/java/com/osivia/spreadsheet/api/service/SpreadsheetService.java:305-309 | an existing non-owner without a record is refused with Unauthorized at every level |
| Permissions.DecisionTable | src/main/java/com/osivia/spreadsheet/api/service/SpreadsheetService.java:311-323 | any record allows VIEW; a VIEW record fails EDIT; only ADMIN passes ADMIN |
| Permissions.LevelsAreNested | src/main/java/com/osivia/spreadsheet/api/service/SpreadsheetService.java:313-323 | passing at a level implies passing at every lower level |
| Permissions.RefusalsAreNotFoundOrUnauthorized | src/main/java/com/osivia/spreadsheet/api/service/SpreadsheetService.java:302-322 | the gate refuses only with NotFound (no such user) or Unauthorized |
| Wrappers.Lookup | src/main/java/com/osivia/spreadsheet/api/repository/SpreadsheetPermissionRepository.java:13 | a find by unique key (findBySpreadsheetAndUser, and findBySheetAndRowIndexAndColumnIndex at CellRepository.java:17) returns a value exactly when the key is stored, and then the stored value |
| Permissions.Upsert | src/main/java/com/osivia/spreadsheet/api/service/SpreadsheetService.java:183-191 | afterwards the (spreadsheet, user) record holds the new level and every other record is unchanged |
| Permissions.Remove | src/main/java/com/osivia/spreadsheet/api/service/SpreadsheetService.java:205-206 | afterwards (spreadsheet, user) has no record and every other record is unchanged |
| Permissions.RegrantReplaces | src/main/java/com/osivia/spreadsheet/api/service/SpreadsheetService.java:183-191 | granting twice is granting the second level once: at most one record per (spreadsheet, user) |
| Permissions.RevokeIsIdempotent | src/main/java/com/osivia/spreadsheet/api/service/SpreadsheetService.java:205-206 | revoking twice is revoking once |
| MediaGuards.UploadGuard | src/main/java/com/osivia/spreadsheet/api/service/MediaService.java:58-69 | uploadMedia's inlined checks in source order: owner, user lookup, record lookup, refusal of a VIEW record; UploadIsEdit proves it equals checkPermission at EDIT |
| MediaGuards.DownloadGuard | src/main/java/com/osivia/spreadsheet/api/service/MediaService.java:105-112 | downloadMedia's inlined checks: owner, user lookup, record presence; DownloadIsView proves it equals checkPermission at VIEW |
| MediaGuards.DeleteGuard | src/main/java/com/osivia/spreadsheet/api/service/MediaService.java:131-142 | deleteMedia's inlined checks, written out separately; DeleteIsUpload proves they decide like the upload guard |
| MediaGuards.UploadIsEdit | src/main/java/com/osivia/spreadsheet/api/service/MediaService.java:58-69 | the upload guard decides like checkPermission at EDIT on every input |
| MediaGuards.DownloadIsView | src/main/java/com/osivia/spreadsheet/api/service/MediaService.java:105-112 | the download guard decides like checkPermission at VIEW on every input |
| MediaGuards.DeleteIsUpload | src/main/java/com/osivia/spreadsheet/api/service/MediaService.java:131-142 | the delete guard is the upload guard on every input |
| MediaGuards.OwnerMayAlwaysUseMedia | src/main/java/com/osivia/spreadsheet/api/service/MediaService.java:58 | the owner passes the upload, download and delete guards |
| MediaGuards.LastIndexOf | src/main/java/com/osivia/spreadsheet/api/service/MediaService.java:81 | None exactly when the character is absent; otherwise a position holding it with no later occurrence |
| MediaGuards.UploadExtension | src/main/java/com/osivia/spreadsheet/api/service/MediaService.java:79-82 | no name or no '.' gives ""; otherwise a non-empty suffix of the name starting at its last '.' |
| MediaGuards.StoredFilename | src/main/java/com/osivia/spreadsheet/api/service/MediaService.java:83 | the stored name is the UUID followed by exactly the upload extension |
| MediaGuards.DotfileKeepsWholeName | src/main/java/com/osivia/spreadsheet/api/service/MediaService.java:80-82 | ".bashrc" keeps the whole name as its extension |
| MediaGuards.TrailingDotIsExtension | src/main/java/com/osivia/spreadsheet/api/service/MediaService.java:80-82 | "a." keeps "." as its extension |
| CellRepository.RowIndices | src/main/java/com/osivia/spreadsheet/api/repository/CellRepository.java:51-52 | the row indices in use are exactly the rows of the stored cells |
| CellRepository.FindByRowIndex | src/main/java/com/osivia/spreadsheet/api/repository/CellRepository.java:26 | exactly the cells of the row, with their values |
| CellRepository.FindByColumnIndex | src/main/java/com/osivia/spreadsheet/api/repository/CellRepository.java:31 | exactly the cells of the column, with their values |
| CellRepository.FindByRowIndexGreaterThan | src/main/java/com/osivia/spreadsheet/api/repository/CellRepository.java:36 | exactly the cells whose row is strictly greater than the (possibly negative) bound |
| CellRepository.FindByColumnIndexGreaterThan | src/main/java/com/osivia/spreadsheet/api/repository/CellRepository.java:41 | exactly the cells whose column is strictly greater |
| CellRepository.FindByColumnIndexGreaterThanEqual | src/main/java/com/osivia/spreadsheet/api/repository/CellRepository.java:46 | exactly the cells whose column is greater or equal |
| CellRepository.InclusiveIsStrictPlusColumn | src/main/java/com/osivia/spreadsheet/api/repository/CellRepository.java:31-46 | the `>=` query is the `>` query together with the column itself |
| CellRepository.FindMaxRowIndex | src/main/java/com/osivia/spreadsheet/api/repository/CellRepository.java:51-52 | MAX(rowIndex): null exactly for a sheet without cells; otherwise a row in use that bounds every cell's row |
| CellRepository.FindOrdered | src/main/java/com/osivia/spreadsheet/api/repository/CellRepository.java:20-21 | the ordered listing has one entry per cell |
| CellRepository.FindOrderedListsCells | src/main/java/com/osivia/spreadsheet/api/repository/CellRepository.java:20-21 | every listed entry is a stored cell with its value |
| CellRepository.FindOrderedListsAll | src/main/java/com/osivia/spreadsheet/api/repository/CellRepository.java:20-21 | every stored cell is listed |
| CellRepository.FindOrderedIsSorted | src/main/java/com/osivia/spreadsheet/api/repository/CellRepository.java:20 | the listing is strictly ordered by rowIndex, then columnIndex |
| GridOps.TrimStart | src/main/java/com/osivia/spreadsheet/api/service/SpreadsheetService.java:399 | the leading half of String.trim, dropping characters <= ' '; TrimStartShape states its result |
| GridOps.TrimEnd | src/main/java/com/osivia/spreadsheet/api/service/SpreadsheetService.java:399 | the trailing half of String.trim; TrimEndShape states its result |
| GridOps.Trim | src/main/java/com/osivia/spreadsheet/api/service/SpreadsheetService.java:404 | String.trim as used by the row and column writers; TrimEnds, TrimEmptyIff and TrimIsIdempotent state its meaning |
| GridOps.TrimStartShape | src/main/java/com/osivia/spreadsheet/api/service/SpreadsheetService.java:399 | trimming the front drops a prefix of characters <= ' ' and leaves a result that starts with none |
| GridOps.TrimEndShape | src/main/java/com/osivia/spreadsheet/api/service/SpreadsheetService.java:399 | trimming the end drops a suffix of characters <= ' ' and leaves a result that ends with none |
| GridOps.TrimEmptyIff | src/main/java/com/osivia/spreadsheet/api/service/SpreadsheetService.java:399 | `trim().isEmpty()` holds exactly when every character is <= ' ' |
| GridOps.TrimEnds | src/main/java/com/osivia/spreadsheet/api/service/SpreadsheetService.java:404 | a trimmed value is a contiguous part of the original that neither starts nor ends with a character <= ' ' |
| GridOps.TrimIsIdempotent | src/main/java/com/osivia/spreadsheet/api/service/SpreadsheetService.java:404 | trimming a trimmed value changes nothing |
| GridOps.Blank | src/main/java/com/osivia/spreadsheet/api/service/SpreadsheetService.java:399 | the writers' skip test `value == null || value.trim().isEmpty()`; TrimEmptyIff characterises it |
| GridOps.Clears | src/main/java/com/osivia/spreadsheet/api/service/SpreadsheetService.java:157 | updateCells' delete test `value == null || value.isEmpty()`, without trimming; WhitespaceIsStored shows the difference from Blank |
| GridOps.UpdateCell | src/main/java/com/osivia/spreadsheet/api/service/SpreadsheetService.java:148-163 | a null or empty value leaves no cell at the address; any other value is stored there exactly; other addresses are unchanged |
| GridOps.UpdateCells | src/main/java/com/osivia/spreadsheet/api/service/SpreadsheetService.java:147-164 | the batch applied entry by entry in list order; LastWriteWins states that the last entry for an address decides it, and GridWriter.ApplyUpdates proves the loop equal to it |
| GridOps.LastWriteTo | src/main/java/com/osivia/spreadsheet/api/service/SpreadsheetService.java:147 | the position of the last batch entry naming the address, or None when no entry names it |
| GridOps.LastWriteWins | src/main/java/com/osivia/spreadsheet/api/service/SpreadsheetService.java:147-164 | after a batch, an address holds what its last entry wrote (nothing for null or empty); an address no entry names is unchanged |
| GridOps.UpdatesKeepSparse | src/main/java/com/osivia/spreadsheet/api/service/SpreadsheetService.java:157-163 | a batch never stores an empty value |
| GridOps.WhitespaceIsStored | src/main/java/com/osivia/spreadsheet/api/service/SpreadsheetService.java:157 | updateCells does not trim: " " is stored as a cell |
| GridOps.RowCells | src/main/java/com/osivia/spreadsheet/api/service/SpreadsheetService.java:397-407 | a row receives a cell in column c exactly when value c is not blank, holding its trimmed value |
| GridOps.ColumnCells | src/main/java/com/osivia/spreadsheet/api/service/SpreadsheetService.java:513-523 | a column receives a cell in row r exactly when value r is not blank, holding its trimmed value |
| GridOps.WrittenCellsAreSparse | src/main/java/com/osivia/spreadsheet/api/service/SpreadsheetService.java:399 | the row and column writers never store an empty value |
| GridOps.WithoutRow | src/main/java/com/osivia/spreadsheet/api/service/SpreadsheetService.java:393-394 | exactly the cells outside the row remain, with their values |
| GridOps.ReplaceRow | src/main/java/com/osivia/spreadsheet/api/service/SpreadsheetService.java:392-407 | after updateRow the row holds exactly the trimmed non-blank values and every other row is unchanged |
| GridOps.NextRow | src/main/java/com/osivia/spreadsheet/api/service/SpreadsheetService.java:420-421 | the appended row is below every cell, is 0 exactly for an empty sheet, and otherwise follows a row in use |
| GridOps.NextRowFromMax | src/main/java/com/osivia/spreadsheet/api/service/SpreadsheetService.java:420-421 | the index is one past the largest row in use |
| GridOps.AppendRow | src/main/java/com/osivia/spreadsheet/api/service/SpreadsheetService.java:413-437 | appendRow writes the row at NextRow; AppendIsReplaceOfNextRow, BlankAppendKeepsIndex and AppendAdvancesIndex state its effect |
| GridOps.AppendIsReplaceOfNextRow | src/main/java/com/osivia/spreadsheet/api/service/SpreadsheetService.java:413-437 | appendRow writes exactly what updateRow writes on the first unused row |
| GridOps.BlankAppendKeepsIndex | src/main/java/com/osivia/spreadsheet/api/service/SpreadsheetService.java:424-436 | an all-blank row stores nothing, so the next append gets the same index |
| GridOps.AppendAdvancesIndex | src/main/java/com/osivia/spreadsheet/api/service/SpreadsheetService.java:420-436 | a row with a non-blank value moves the next append's index on by one |
| GridOps.RowsCells | src/main/java/com/osivia/spreadsheet/api/service/SpreadsheetService.java:442-471 | the cells appendMultipleRows writes from a start row; RowsCellsMeaning states them in both directions |
| GridOps.AppendRows | src/main/java/com/osivia/spreadsheet/api/service/SpreadsheetService.java:442-471 | appendMultipleRows: the rows written from NextRow on top of the existing grid; RowWritesKeepSparse and BlankRowConsumesIndex state its properties |
| GridOps.RowsCellsMeaning | src/main/java/com/osivia/spreadsheet/api/service/SpreadsheetService.java:452-468 | input row i's trimmed non-blank values, and nothing else, land on row start + i |
| GridOps.BlankRowConsumesIndex | src/main/java/com/osivia/spreadsheet/api/service/SpreadsheetService.java:467 | a blank input row stores nothing but still consumes its index |
| GridOps.RowWritesKeepSparse | src/main/java/com/osivia/spreadsheet/api/service/SpreadsheetService.java:386-471 | updateRow, appendRow and appendMultipleRows keep the sheet free of empty cells |
| GridOps.UnionKeepsSparse | src/main/java/com/osivia/spreadsheet/api/service/SpreadsheetService.java:396-407 | combining two grids without empty cells gives none |
| GridOps.Translate | src/main/java/com/osivia/spreadsheet/api/service/SpreadsheetService.java:490-492 | the index rewrite of the shift loops: every cell of the queried block gets row + dRow and column + dCol (here deleteRows' setRowIndex(row - count); insertColumn's +1 at :507-509 and deleteColumn's -1 at :541-543 are the same rewrite); TranslateAt states where each value lands |
| GridOps.TranslateAt | src/main/java/com/osivia/spreadsheet/api/service/SpreadsheetService.java:490-493 | the shifted block holds at b exactly the value of the cell that came from b minus the shift |
| GridOps.LeftOf | src/main/java/com/osivia/spreadsheet/api/service/SpreadsheetService.java:506 | exactly the cells left of the column, which the column shifts leave in place |
| GridOps.Above | src/main/java/com/osivia/spreadsheet/api/service/SpreadsheetService.java:489 | exactly the cells above the start row, which deleteRows leaves in place |
| GridOps.RowsBelowCanMoveUp | src/main/java/com/osivia/spreadsheet/api/service/SpreadsheetService.java:489-491 | no cell below the deleted block gets a negative row index |
| GridOps.DeleteRows | src/main/java/com/osivia/spreadsheet/api/service/SpreadsheetService.java:476-494 | deleteRows as clear-then-shift-up; DeleteRowsAt states it pointwise and GridWriter.DeleteRowBlock proves the loops equal to it |
| GridOps.DeleteRowsAt | src/main/java/com/osivia/spreadsheet/api/service/SpreadsheetService.java:476-494 | rows above the start are kept; row r at or below it holds what row r + count held; nothing else remains |
| GridOps.DeleteNoRows | src/main/java/com/osivia/spreadsheet/api/service/SpreadsheetService.java:483-493 | deleting zero rows changes nothing |
| GridOps.ColumnsCanMoveRight | src/main/java/com/osivia/spreadsheet/api/service/SpreadsheetService.java:506-510 | the cells in or right of the column can move one right |
| GridOps.ColumnsCanMoveLeft | src/main/java/com/osivia/spreadsheet/api/service/SpreadsheetService.java:540-544 | the cells right of the column can move one left without a negative index |
| GridOps.ShiftRight | src/main/java/com/osivia/spreadsheet/api/service/SpreadsheetService.java:499-509 | the first phase of insertColumn, moving every cell at or right of the column one to the right; ShiftRightAt states it pointwise |
| GridOps.InsertColumn | src/main/java/com/osivia/spreadsheet/api/service/SpreadsheetService.java:499-524 | insertColumn as shift then column write; InsertColumnAt states it pointwise and InsertThenDeleteColumn gives its inverse |
| GridOps.ShiftRightAt | src/main/java/com/osivia/spreadsheet/api/service/SpreadsheetService.java:505-510 | columns left of col are kept, col is empty, and column c > col holds what column c - 1 held |
| GridOps.InsertColumnAt | src/main/java/com/osivia/spreadsheet/api/service/SpreadsheetService.java:499-524 | after insertColumn: left columns kept, column col holds exactly the trimmed non-blank values, later columns hold the previous column's cells |
| GridOps.DeleteColumn | src/main/java/com/osivia/spreadsheet/api/service/SpreadsheetService.java:529-545 | deleteColumn as clear-then-shift-left; DeleteColumnAt states it pointwise and InsertThenDeleteColumn shows it undoes InsertColumn |
| GridOps.DeleteColumnAt | src/main/java/com/osivia/spreadsheet/api/service/SpreadsheetService.java:529-545 | after deleteColumn: left columns kept, column c >= col holds what column c + 1 held |
| GridOps.ShiftsKeepSparse | src/main/java/com/osivia/spreadsheet/api/service/SpreadsheetService.java:476-545 | deleteRows, insertColumn and deleteColumn never create an empty cell |
| GridOps.InsertThenDeleteColumn | src/main/java/com/osivia/spreadsheet/api/service/SpreadsheetService.java:499-545 | deleting a just-inserted column restores the original grid |
| GridWriter.TranslateKeepsCount | src/main/java/com/osivia/spreadsheet/api/service/SpreadsheetService.java:490-493 | shifting a block keeps its number of cells: distinct cells land on distinct addresses |
| GridWriter.TranslateOneMore | src/main/java/com/osivia/spreadsheet/api/service/SpreadsheetService.java:490-493 | a block shifts as its other cells plus one more, on an address they do not use |
| GridWriter.AfterMoveAt | src/main/java/com/osivia/spreadsheet/api/service/SpreadsheetService.java:490-493 | after a block move, an address holds a moved cell if one lands there, otherwise the unmoved cell |
| GridWriter.MoveLandsOnFreeCells | src/main/java/com/osivia/spreadsheet/api/service/SpreadsheetService.java:490-493 | without a collision, moved cells land only on free addresses |
| GridWriter.MoveKeepsCount | src/main/java/com/osivia/spreadsheet/api/service/SpreadsheetService.java:490-493 | a collision-free move keeps the number of cells in the sheet |
| GridWriter.StagedStart | src/main/java/com/osivia/spreadsheet/api/service/SpreadsheetService.java:490 | before the shifting loop every cell is pending and none is moved |
| GridWriter.StageStep | src/main/java/com/osivia/spreadsheet/api/service/SpreadsheetService.java:490-493 | saving one more shifted cell keeps the loop state |
| GridWriter.StagedIsTranslate | src/main/java/com/osivia/spreadsheet/api/service/SpreadsheetService.java:490-493 | when the loop ends the moved cells are the shifted block |
| GridWriter.StagedStay | src/main/java/com/osivia/spreadsheet/api/service/SpreadsheetService.java:490-493 | when the loop ends exactly the unmoved cells stay |
| GridWriter.MoveCells | src/main/java/com/osivia/spreadsheet/api/service/SpreadsheetService.java:490-493 | the shifting loop, visiting the snapshot in any order, yields the unmoved cells plus the shifted block and loses no cell |
| GridWriter.ApplyUpdates | src/main/java/com/osivia/spreadsheet/api/service/SpreadsheetService.java:147-164 | the updateCells loop yields the batch applied in list order |
| GridWriter.UnionUpdate | src/main/java/com/osivia/spreadsheet/api/service/SpreadsheetService.java:405 | saving a cell on top of the grid is saving it into the written block |
| GridWriter.UnionAssoc | src/main/java/com/osivia/spreadsheet/api/service/SpreadsheetService.java:454-468 | writing two blocks one after the other is writing their union |
| GridWriter.RowCellsStep | src/main/java/com/osivia/spreadsheet/api/service/SpreadsheetService.java:397-407 | one more value adds its cell exactly when it is not blank |
| GridWriter.ColumnCellsStep | src/main/java/com/osivia/spreadsheet/api/service/SpreadsheetService.java:513-523 | one more value adds its cell exactly when it is not blank |
| GridWriter.RowsCellsStep | src/main/java/com/osivia/spreadsheet/api/service/SpreadsheetService.java:454-468 | one more input row adds its cells at the next row |
| GridWriter.WriteRow | src/main/java/com/osivia/spreadsheet/api/service/SpreadsheetService.java:397-407 | the value loop adds exactly the row's trimmed non-blank cells |
| GridWriter.WriteColumn | src/main/java/com/osivia/spreadsheet/api/service/SpreadsheetService.java:513-523 | the value loop adds exactly the column's trimmed non-blank cells |
| GridWriter.WriteRows | src/main/java/com/osivia/spreadsheet/api/service/SpreadsheetService.java:452-470 | the nested loops add every input row at start + i and return the number of input rows |
| GridWriter.ClearRow | src/main/java/com/osivia/spreadsheet/api/service/SpreadsheetService.java:393-394 | deleting the row's query result leaves exactly the other rows |
| GridWriter.ReplaceRowCells | src/main/java/com/osivia/spreadsheet/api/service/SpreadsheetService.java:392-407 | updateRow's steps yield the replaced row |
| GridWriter.AppendRowCells | src/main/java/com/osivia/spreadsheet/api/service/SpreadsheetService.java:420-436 | appendRow's steps yield the appended grid and return the first unused row |
| GridWriter.AppendRowsCells | src/main/java/com/osivia/spreadsheet/api/service/SpreadsheetService.java:449-470 | appendMultipleRows' steps yield the appended grid and return the row count |
| GridWriter.WithoutRows | src/main/java/com/osivia/spreadsheet/api/service/SpreadsheetService.java:483-486 | exactly the cells outside the deleted rows remain |
| GridWriter.ClearRows | src/main/java/com/osivia/spreadsheet/api/service/SpreadsheetService.java:483-486 | the deletion loop leaves exactly the cells outside rows start .. start+count-1 |
| GridWriter.RowsBelowMoveFreely | src/main/java/com/osivia/spreadsheet/api/service/SpreadsheetService.java:489-493 | moving the rows below up never lands on a cell that stays |
| GridWriter.ClearedRowsSplit | src/main/java/com/osivia/spreadsheet/api/service/SpreadsheetService.java:483-489 | after clearing, the query finds the same rows below as before, and the rest are the rows above |
| GridWriter.DeleteRowsIsMove | src/main/java/com/osivia/spreadsheet/api/service/SpreadsheetService.java:483-493 | deleteRows is the block move of the rows below the cleared block |
| GridWriter.DeleteRowsCount | src/main/java/com/osivia/spreadsheet/api/service/SpreadsheetService.java:483-493 | deleteRows keeps as many cells as lie outside the deleted rows |
| GridWriter.DeleteRowBlock | src/main/java/com/osivia/spreadsheet/api/service/SpreadsheetService.java:483-493 | deleteRows' loops yield the reference result |
| GridWriter.ColumnsMoveRightFreely | src/main/java/com/osivia/spreadsheet/api/service/SpreadsheetService.java:506-510 | moving the columns right never lands on a cell that stays |
| GridWriter.ShiftRightIsMove | src/main/java/com/osivia/spreadsheet/api/service/SpreadsheetService.java:506-510 | the first phase of insertColumn is a block move |
| GridWriter.ShiftRightCount | src/main/java/com/osivia/spreadsheet/api/service/SpreadsheetService.java:506-510 | the shift keeps every cell |
| GridWriter.InsertColumnCells | src/main/java/com/osivia/spreadsheet/api/service/SpreadsheetService.java:505-523 | insertColumn's loops yield the reference result |
| GridWriter.WithoutColumn | src/main/java/com/osivia/spreadsheet/api/service/SpreadsheetService.java:536-537 | exactly the cells outside the column remain |
| GridWriter.ClearColumn | src/main/java/com/osivia/spreadsheet/api/service/SpreadsheetService.java:536-537 | deleting the column's query result leaves exactly the other columns |
| GridWriter.ColumnsMoveLeftFreely | src/main/java/com/osivia/spreadsheet/api/service/SpreadsheetService.java:540-544 | moving the columns left never lands on a cell that stays |
| GridWriter.ClearedColumnSplit | src/main/java/com/osivia/spreadsheet/api/service/SpreadsheetService.java:536-540 | after clearing, the query finds the same columns to the right, and the rest are the columns to the left |
| GridWriter.DeleteColumnIsMove | src/main/java/com/osivia/spreadsheet/api/service/SpreadsheetService.java:536-544 | deleteColumn is the block move of the columns right of the cleared one |
| GridWriter.WithoutColumnCount | src/main/java/com/osivia/spreadsheet/api/service/SpreadsheetService.java:536-537 | clearing removes exactly the column's cells |
| GridWriter.DeleteColumnCount | src/main/java/com/osivia/spreadsheet/api/service/SpreadsheetService.java:536-544 | deleteColumn removes exactly the column's cells and keeps all others |
| GridWriter.DeleteColumnCells | src/main/java/com/osivia/spreadsheet/api/service/SpreadsheetService.java:536-544 | deleteColumn's loops yield the reference result |
| SheetOrder.Insert | src/main/java/com/osivia/spreadsheet/api/service/SpreadsheetService.java:591 | inserting adds exactly one entry |
| SheetOrder.InsertKeepsSorted | src/main/java/com/osivia/spreadsheet/api/service/SpreadsheetService.java:591 | inserting into a list ordered by orderIndex keeps it ordered |
| SheetOrder.Sort | src/main/java/com/osivia/spreadsheet/api/service/SpreadsheetService.java:591 | the sort keeps the list's length |
| SheetOrder.InsertPermutes | src/main/java/com/osivia/spreadsheet/api/service/SpreadsheetService.java:591 | inserting keeps every entry and adds the new one |
| SheetOrder.SortPermutes | src/main/java/com/osivia/spreadsheet/api/service/SpreadsheetService.java:591 | the sort's result is a permutation of its input |
| SheetOrder.SortIsSorted | src/main/java/com/osivia/spreadsheet/api/service/SpreadsheetService.java:591 | the sort's result is ordered by orderIndex |
| SheetOrder.WithOrder | src/main/java/com/osivia/spreadsheet/api/service/SpreadsheetService.java:591 | the entries with one orderIndex, none other |
| SheetOrder.WithOrderAppend | src/main/java/com/osivia/spreadsheet/api/service/SpreadsheetService.java:591 | that filter distributes over concatenation |
| SheetOrder.NoneWithOrder | src/main/java/com/osivia/spreadsheet/api/service/SpreadsheetService.java:591 | no entry carries an orderIndex below all of them |
| SheetOrder.InsertFrontWithOrder | src/main/java/com/osivia/spreadsheet/api/service/SpreadsheetService.java:591 | an entry inserted in front of greater entries comes last among its own orderIndex |
| SheetOrder.InsertWithOrder | src/main/java/com/osivia/spreadsheet/api/service/SpreadsheetService.java:591 | an inserted entry comes after every entry with the same orderIndex |
| SheetOrder.SortIsStable | src/main/java/com/osivia/spreadsheet/api/service/SpreadsheetService.java:591 | List.sort is stable: entries sharing an orderIndex keep their relative order |
| SheetOrder.InsertAtEnd | src/main/java/com/osivia/spreadsheet/api/service/SpreadsheetService.java:591 | an entry not below any other goes to the end |
| SheetOrder.SortedIsFixed | src/main/java/com/osivia/spreadsheet/api/service/SpreadsheetService.java:591 | a list already ordered by orderIndex comes out unchanged |
| Csv.NeedsQuoting | src/main/java/com/osivia/spreadsheet/api/service/ZipExportImportService.java:168 | the writer's quote test on ',', '"' and '\n', which ignores '\r' (CarriageReturnIsWrittenPlain) |
| Csv.DoubleQuotes | src/main/java/com/osivia/spreadsheet/api/service/ZipExportImportService.java:169 | every '"' doubled; ReadQuotedBack proves the reader undoes it |
| Csv.QuoteField | src/main/java/com/osivia/spreadsheet/api/service/ZipExportImportService.java:167-170 | a field without ',', '"' or '\n' is written as it is; one with them is wrapped in quotes |
| Csv.QuoteAll | src/main/java/com/osivia/spreadsheet/api/service/ZipExportImportService.java:159-173 | every field of a line quoted as needed, in order |
| Csv.JoinFields | src/main/java/com/osivia/spreadsheet/api/service/ZipExportImportService.java:156-172 | the fields of a line separated by ','; JoinFieldsSnoc states the separator rule |
| Csv.FormatLine | src/main/java/com/osivia/spreadsheet/api/service/ZipExportImportService.java:156-172 | one written line: the quoted fields joined by ','; FormatLineSingle and FormatLineCons state its shape |
| Csv.FormatLines | src/main/java/com/osivia/spreadsheet/api/service/ZipExportImportService.java:156-176 | the whole text, each line followed by println's "\n"; FormatLinesSnoc states the step and ParseFormatLines the round trip |
| Csv.JoinFieldsSnoc | src/main/java/com/osivia/spreadsheet/api/service/ZipExportImportService.java:160-172 | appending a field adds ',' before it, except for the first |
| Csv.FormatLinesSnoc | src/main/java/com/osivia/spreadsheet/api/service/ZipExportImportService.java:175 | each line is followed by "\n" |
| Csv.ReadUnquoted | src/main/java/com/osivia/spreadsheet/api/service/ZipExportImportService.java:293 | an unquoted field is the longest delimiter-free prefix; the rest starts at a delimiter or is empty |
| Csv.ReadQuoted | src/main/java/com/osivia/spreadsheet/api/service/ZipExportImportService.java:293 | reading a quoted body consumes input |
| Csv.ReadField | src/main/java/com/osivia/spreadsheet/api/service/ZipExportImportService.java:293 | a field ends at a delimiter or at the end of the text |
| Csv.ReadRecord | src/main/java/com/osivia/spreadsheet/api/service/ZipExportImportService.java:293 | a record has at least one field and consumes input |
| Csv.ReadQuotedEscape | src/main/java/com/osivia/spreadsheet/api/service/ZipExportImportService.java:169 | "" inside quotes reads as one '"' |
| Csv.ReadQuotedChar | src/main/java/com/osivia/spreadsheet/api/service/ZipExportImportService.java:169 | any other character inside quotes reads as itself |
| Csv.ReadQuotedBack | src/main/java/com/osivia/spreadsheet/api/service/ZipExportImportService.java:169 | a doubled-quote body and its closing quote read back as the value |
| Csv.ReadUnquotedBack | src/main/java/com/osivia/spreadsheet/api/service/ZipExportImportService.java:172 | an unquoted delimiter-free value reads back up to the next delimiter |
| Csv.ReadFieldQuoted | src/main/java/com/osivia/spreadsheet/api/service/ZipExportImportService.java:168-169 | a quoted field followed by a delimiter reads back as its value |
| Csv.ReadFieldPlain | src/main/java/com/osivia/spreadsheet/api/service/ZipExportImportService.java:172 | a plain field followed by a delimiter reads back as itself |
| Csv.ReadFieldBack | src/main/java/com/osivia/spreadsheet/api/service/ZipExportImportService.java:165-172 | any written field the reader can recover, followed by ',' or '\n', reads back as its value |
| Csv.FormatLineSingle | src/main/java/com/osivia/spreadsheet/api/service/ZipExportImportService.java:159-173 | a one-field line is that field, quoted as needed |
| Csv.FormatLineCons | src/main/java/com/osivia/spreadsheet/api/service/ZipExportImportService.java:159-173 | a longer line is its first field, ',' and the rest |
| Csv.ReadRecordComma | src/main/java/com/osivia/spreadsheet/api/service/ZipExportImportService.java:293 | a field followed by ',' continues the record |
| Csv.ReadRecordNewline | src/main/java/com/osivia/spreadsheet/api/service/ZipExportImportService.java:293 | a field followed by '\n' ends the record |
| Csv.ReadRecordBackOne | src/main/java/com/osivia/spreadsheet/api/service/ZipExportImportService.java:175 | a written one-field line reads back as that field |
| Csv.ReadRecordBackCons | src/main/java/com/osivia/spreadsheet/api/service/ZipExportImportService.java:159-175 | a written line whose first field and rest read back reads back |
| Csv.ReadRecordBack | src/main/java/com/osivia/spreadsheet/api/service/ZipExportImportService.java:156-176 | a written line of recoverable fields reads back as those fields |
| Csv.Parse | src/main/java/com/osivia/spreadsheet/api/service/ZipExportImportService.java:293 | readNext repeated to the end of the text, standing for OpenCSV's reader; ParseFormatLines proves it inverts FormatLines on recoverable fields |
| Csv.ParseFormatLines | src/main/java/com/osivia/spreadsheet/api/service/ZipExportImportService.java:156-176 | text made of written lines, each of at least one recoverable field, parses back to exactly those lines |
| Csv.CarriageReturnSplitsRecord | src/main/java/com/osivia/spreadsheet/api/service/ZipExportImportService.java:168 | "a\rb" is written unquoted and reads back as two records |
| Csv.CarriageReturnIsWrittenPlain | src/main/java/com/osivia/spreadsheet/api/service/ZipExportImportService.java:168 | a lone '\r' does not trigger quoting |
| Csv.CarriageReturnEndsRecord | src/main/java/com/osivia/spreadsheet/api/service/ZipExportImportService.java:293 | the reader ends a record at an unquoted '\r' |
| Csv.LastRecord | src/main/java/com/osivia/spreadsheet/api/service/ZipExportImportService.java:293 | "b\n" is one last record |
| Archive.SanitizeFilename | src/main/java/com/osivia/spreadsheet/api/service/ZipExportImportService.java:315-317 | sanitizing keeps the length |
| Archive.Kept | src/main/java/com/osivia/spreadsheet/api/service/ZipExportImportService.java:316 | the character class [a-zA-Z0-9.-] that the replacement keeps; SanitizeIsCharacterMap uses it |
| Archive.SanitizeIsCharacterMap | src/main/java/com/osivia/spreadsheet/api/service/ZipExportImportService.java:316 | each character of `[a-zA-Z0-9.-]` stays in place and every other becomes '_' |
| Archive.SanitizedIsKept | src/main/java/com/osivia/spreadsheet/api/service/ZipExportImportService.java:316 | the result uses only kept characters and '_'; a name made of kept characters is unchanged |
| Archive.SanitizeIsIdempotent | src/main/java/com/osivia/spreadsheet/api/service/ZipExportImportService.java:316 | sanitizing twice is sanitizing once |
| Archive.SanitizeCollides | src/main/java/com/osivia/spreadsheet/api/service/ZipExportImportService.java:316 | distinct names "A/B" and "A B" get the same file name |
| Archive.CsvFilename | src/main/java/com/osivia/spreadsheet/api/service/ZipExportImportService.java:90 | the CSV name is as long as the sheet name plus ".csv" and ends in ".csv" |
| Archive.SheetEntry | src/main/java/com/osivia/spreadsheet/api/service/ZipExportImportService.java:99 | the entry path is "sheets/" followed by the file name |
| Archive.MediaEntry | src/main/java/com/osivia/spreadsheet/api/service/ZipExportImportService.java:125 | the entry path is "media/" followed by the file name |
| Archive.MaxRow | src/main/java/com/osivia/spreadsheet/api/service/ZipExportImportService.java:142-151 | maxRow bounds every cell's row and is reached by one when there are cells |
| Archive.MaxColumn | src/main/java/com/osivia/spreadsheet/api/service/ZipExportImportService.java:143-151 | maxCol bounds every cell's column and is reached by one when there are cells |
| Archive.Height | src/main/java/com/osivia/spreadsheet/api/service/ZipExportImportService.java:156 | the number of lines writeSheetToCsv emits, MaxRow + 1 (the loop bound `row <= maxRow`) |
| Archive.Width | src/main/java/com/osivia/spreadsheet/api/service/ZipExportImportService.java:159 | the number of fields on each line, MaxColumn + 1 (the loop bound `col <= maxCol`) |
| Archive.CellText | src/main/java/com/osivia/spreadsheet/api/service/ZipExportImportService.java:164-165 | the value the writer looks up for (row, col): the cell's value, or "" when the map has no cell; DenseRow and CellsOfDense use it |
| Archive.DenseRow | src/main/java/com/osivia/spreadsheet/api/service/ZipExportImportService.java:159-166 | line `row` has one value per column: the cell's value, or "" for no cell |
| Archive.Dense | src/main/java/com/osivia/spreadsheet/api/service/ZipExportImportService.java:156-176 | one line per row from 0 to maxRow |
| Archive.SheetShape | src/main/java/com/osivia/spreadsheet/api/service/ZipExportImportService.java:142-176 | the written rectangle has at least one line of one field, covers every cell, and is the smallest that does |
| Archive.EmptySheetIsOneEmptyLine | src/main/java/com/osivia/spreadsheet/api/service/ZipExportImportService.java:142-176 | a sheet without cells is written as a single empty line |
| Archive.MaxRowUnique | src/main/java/com/osivia/spreadsheet/api/service/ZipExportImportService.java:142-151 | a running maximum from 0 that saw every cell's row is maxRow |
| Archive.MaxColumnUnique | src/main/java/com/osivia/spreadsheet/api/service/ZipExportImportService.java:143-151 | a running maximum from 0 that saw every cell's column is maxCol |
| Archive.CellBounds | src/main/java/com/osivia/spreadsheet/api/service/ZipExportImportService.java:142-151 | the first loop computes maxRow and maxCol |
| Archive.WriteLine | src/main/java/com/osivia/spreadsheet/api/service/ZipExportImportService.java:157-173 | the inner loop produces the line's quoted fields joined by ',' |
| Archive.SheetCsv | src/main/java/com/osivia/spreadsheet/api/service/ZipExportImportService.java:140-179 | the CSV text of a sheet: the dense rectangle from (0, 0) to the largest indices, formatted; Archive.WriteSheetToCsv proves the loops equal to it and SheetRoundTrip reads it back |
| Archive.WriteSheetToCsv | src/main/java/com/osivia/spreadsheet/api/service/ZipExportImportService.java:140-179 | writeSheetToCsv produces the dense rectangle as CSV, each line ended by "\n" |
| Archive.FilledAddrs | src/main/java/com/osivia/spreadsheet/api/service/ZipExportImportService.java:294-296 | exactly the addresses of the non-empty fields |
| Archive.CellsOf | src/main/java/com/osivia/spreadsheet/api/service/ZipExportImportService.java:291-306 | record k, field j is a cell (k, j) exactly when it is non-empty, with that value; never an empty cell |
| Archive.CellsOfAppendField | src/main/java/com/osivia/spreadsheet/api/service/ZipExportImportService.java:294-303 | one more field adds its cell only when it is not empty |
| Archive.CellsOfEmptyRecord | src/main/java/com/osivia/spreadsheet/api/service/ZipExportImportService.java:305 | an empty record adds no cell but consumes a row |
| Archive.ImportCellsFromCsv | src/main/java/com/osivia/spreadsheet/api/service/ZipExportImportService.java:286-310 | the import loop saves exactly the non-empty fields, the row counter advancing for every record |
| Archive.CellsOfDense | src/main/java/com/osivia/spreadsheet/api/service/ZipExportImportService.java:156-176 | a rectangle covering a sheet without empty cells gives back exactly its cells |
| Archive.DenseRecoverable | src/main/java/com/osivia/spreadsheet/api/service/ZipExportImportService.java:165 | when every cell value is recoverable, so is every field of the rectangle |
| Archive.SheetRoundTrip | src/main/java/com/osivia/spreadsheet/api/service/ZipExportImportService.java:140-179 | reading back a sheet's CSV gives the same cells, provided each value is recoverable by the reader |
| Archive.OneCellSheet | src/main/java/com/osivia/spreadsheet/api/service/ZipExportImportService.java:156-176 | a sheet of one cell at (0, 0) is one line of one field |
| Archive.TwoRecordsTwoCells | src/main/java/com/osivia/spreadsheet/api/service/ZipExportImportService.java:291-306 | two one-field records give cells on rows 0 and 1 |
| Archive.CarriageReturnBreaksRoundTrip | src/main/java/com/osivia/spreadsheet/api/service/ZipExportImportService.java:168 | the value "a\rb" is not recoverable and comes back as two cells on two rows |
| Archive.MapSeq | src/main/java/com/osivia/spreadsheet/api/service/ZipExportImportService.java:89 | one image per element, in order |
| Archive.DistinctFilenames | src/main/java/com/osivia/spreadsheet/api/service/ZipExportImportService.java:89-103 | the condition under which no `putNextEntry` in the export loop meets an entry name already written: no two sheets share a sanitized CSV file name; WrittenIffShared and ExportSpreadsheetToZip prove it decides Ok against DuplicateEntry |
| Archive.SheetMeta | src/main/java/com/osivia/spreadsheet/api/service/ZipExportImportService.java:93-96 | the metadata entry of one sheet: its name and its CSV file name; ExportedMetadata lists them in sheet order |
| Archive.ExportedMetadata | src/main/java/com/osivia/spreadsheet/api/service/ZipExportImportService.java:89-96 | one metadata entry per sheet in list order: the sheet's name, and the file its CSV is written to |
| Archive.AssocKeys | src/main/java/com/osivia/spreadsheet/api/service/ZipExportImportService.java:99 | the entries written are exactly the paths put |
| Archive.AssocValues | src/main/java/com/osivia/spreadsheet/api/service/ZipExportImportService.java:99-102 | with no path put twice, each path holds its own text |
| Archive.ExportedEntries | src/main/java/com/osivia/spreadsheet/api/service/ZipExportImportService.java:99-102 | the entries the export loop writes, one "sheets/" path per sheet holding its CSV; ExportedEntriesKeys and ExportedEntriesValues state them |
| Archive.ExportedEntriesKeys | src/main/java/com/osivia/spreadsheet/api/service/ZipExportImportService.java:89-103 | the export writes an entry for every sheet and no other under "sheets/" |
| Archive.ExportedEntriesValues | src/main/java/com/osivia/spreadsheet/api/service/ZipExportImportService.java:89-103 | with distinct file names each sheet's entry holds that sheet's CSV |
| Archive.SheetEntryInjective | src/main/java/com/osivia/spreadsheet/api/service/ZipExportImportService.java:99 | different file names give different entry paths |
| Archive.DistinctPrefix | src/main/java/com/osivia/spreadsheet/api/service/ZipExportImportService.java:89 | distinct file names stay distinct on every prefix of the sheet list |
| Archive.DistinctExtend | src/main/java/com/osivia/spreadsheet/api/service/ZipExportImportService.java:89-99 | one more sheet keeps the names distinct exactly when no earlier sheet shares its file name |
| Archive.WrittenIffShared | src/main/java/com/osivia/spreadsheet/api/service/ZipExportImportService.java:99 | a sheet's entry is already written exactly when an earlier sheet shares its file name |
| Archive.DistinctStep | src/main/java/com/osivia/spreadsheet/api/service/ZipExportImportService.java:99 | one more sheet keeps the names distinct exactly when its entry is not yet written |
| Archive.ExportStep | src/main/java/com/osivia/spreadsheet/api/service/ZipExportImportService.java:89-103 | a repeated entry shows the names are not distinct; otherwise the next metadata and CSV entries are this sheet's |
| Archive.ExportSpreadsheetToZip | src/main/java/com/osivia/spreadsheet/api/service/ZipExportImportService.java:77-134 | the export succeeds exactly when no two sheets share a file name (otherwise DuplicateEntry), and then holds the name, description, sheet metadata in list order, media metadata and one CSV per sheet |
| Archive.PresentSheets | src/main/java/com/osivia/spreadsheet/api/service/ZipExportImportService.java:222-226 | only sheets whose CSV is in the archive, in metadata order |
| Archive.CsvCells | src/main/java/com/osivia/spreadsheet/api/service/ZipExportImportService.java:223-234 | the cells importCellsFromCsv saves from one extracted CSV entry: CellsOf of the parsed text (the reading loop at :286-310); ImportCellsFromCsv proves the loop equal to CellsOf |
| Archive.ImportSheets | src/main/java/com/osivia/spreadsheet/api/service/ZipExportImportService.java:220-238 | the sheets the import creates from the metadata and the extracted entries; ImportSheetsArePresent and MissingCsvsAreSkipped state its result |
| Archive.ImportSheetsArePresent | src/main/java/com/osivia/spreadsheet/api/service/ZipExportImportService.java:220-238 | the imported sheets are the present ones, in metadata order, numbered 0, 1, 2, … without gaps, each with its own CSV's cells |
| Archive.MissingCsvsAreSkipped | src/main/java/com/osivia/spreadsheet/api/service/ZipExportImportService.java:235-237 | a sheet whose CSV is missing is skipped, not created empty |
| Archive.AllPresent | src/main/java/com/osivia/spreadsheet/api/service/ZipExportImportService.java:222-234 | when every CSV is there every sheet of the metadata is imported |
| Archive.DirExists | src/main/java/com/osivia/spreadsheet/api/service/ZipExportImportService.java:220 | `Files.exists(sheetsDir)`, and `Files.exists(mediaDir)` at :245, on the extracted archive: some entry lies under the directory; NoSheetsDirectory and NoMediaDirectory state what its failure means |
| Archive.NoSheetsDirectory | src/main/java/com/osivia/spreadsheet/api/service/ZipExportImportService.java:220-241 | without a "sheets/" directory no sheet is created |
| Archive.ImportSheetsFromZip | src/main/java/com/osivia/spreadsheet/api/service/ZipExportImportService.java:220-238 | the sheet loop with its order counter yields the imported sheets |
| Archive.ImportExtension | src/main/java/com/osivia/spreadsheet/api/service/ZipExportImportService.java:250-254 | the import's extension rule with lastIndexOf('.') > 0; ImportExtensionShape states its result and ImportExtensionVersusUpload compares it with the upload rule |
| Archive.ImportExtensionShape | src/main/java/com/osivia/spreadsheet/api/service/ZipExportImportService.java:250-254 | the import's extension is empty without a '.' past the first character, and otherwise a proper suffix starting at the last '.' |
| Archive.ImportExtensionVersusUpload | src/main/java/com/osivia/spreadsheet/api/service/ZipExportImportService.java:250-254 | the import and upload extension rules differ only when the only '.' is the first character |
| Archive.DotfileLosesExtensionOnImport | src/main/java/com/osivia/spreadsheet/api/service/ZipExportImportService.java:251-254 | ".bashrc" gets no extension on import but keeps the whole name on upload |
| Archive.PresentMedia | src/main/java/com/osivia/spreadsheet/api/service/ZipExportImportService.java:246-249 | only media found under "media/", in metadata order |
| Archive.MediaRecord | src/main/java/com/osivia/spreadsheet/api/service/ZipExportImportService.java:250-268 | the media record the import saves for the k-th file found: the k-th UUID followed by the import extension, with the metadata's content type and size; ImportMediaArePresent states the records |
| Archive.ImportMedia | src/main/java/com/osivia/spreadsheet/api/service/ZipExportImportService.java:244-272 | the media records the import creates; ImportMediaArePresent states each record in both directions |
| Archive.ImportMediaArePresent | src/main/java/com/osivia/spreadsheet/api/service/ZipExportImportService.java:244-272 | the k-th media record comes from the k-th file found, named by the k-th UUID and the import extension, with its type and size |
| Archive.MatchesPresentSnoc | src/main/java/com/osivia/spreadsheet/api/service/ZipExportImportService.java:255-270 | one more file found adds the record named by the next UUID |
| Archive.ImportMediaFromZip | src/main/java/com/osivia/spreadsheet/api/service/ZipExportImportService.java:244-272 | the media loop yields the imported media records |
| Archive.NoMediaDirectory | src/main/java/com/osivia/spreadsheet/api/service/ZipExportImportService.java:245 | without a "media/" directory no media record is created |
| Archive.ImportSpreadsheetFromZip | src/main/java/com/osivia/spreadsheet/api/service/ZipExportImportService.java:185-281 | no metadata.json fails with FormatError before anything else; then an unknown user fails with NotFound; otherwise the spreadsheet has the metadata's name and description, the user as owner, and the present sheets and media |
| Archive.ExportImportRoundTrip | src/main/java/com/osivia/spreadsheet/api/service/ZipExportImportService.java:77-310 | with distinct file names and recoverable values, the imported sheets are the exported ones by name, in list order, numbered 0, 1, 2, …, with the same cells |
| Service.Invariant | src/main/java/com/osivia/spreadsheet/api/service/SpreadsheetService.java:56-598 | the state every service operation keeps: dense orderIndex per spreadsheet, every sheet listed, one sparse grid per sheet, fresh ids, owners are users, records name an existing spreadsheet and a non-owner user; the …KeepsInvariant lemmas prove each operation preserves it |
| Service.AddSpreadsheetKeepsInvariant | src/main/java/com/osivia/spreadsheet/api/service/SpreadsheetService.java:56-74 | a fresh spreadsheet with one fresh sheet at position 0 keeps the invariant |
| Service.NewSheetGrid | src/main/java/com/osivia/spreadsheet/api/service/SpreadsheetService.java:66-70 | a new sheet with an empty grid keeps one sparse grid per sheet |
| Service.NewSpreadsheetSheetsListed | src/main/java/com/osivia/spreadsheet/api/service/SpreadsheetService.java:66-70 | the new sheet is listed by its spreadsheet and every other sheet stays listed |
| Service.NewSpreadsheetListsOrdered | src/main/java/com/osivia/spreadsheet/api/service/SpreadsheetService.java:66-70 | every list stays ordered by position when the new spreadsheet is added |
| Service.AddSheetKeepsInvariant | src/main/java/com/osivia/spreadsheet/api/service/SpreadsheetService.java:123-128 | a fresh sheet at the end of its spreadsheet's list with orderIndex = list size keeps the invariant |
| Service.SheetsOf | src/main/java/com/osivia/spreadsheet/api/service/SpreadsheetService.java:114 | exactly the sheets of the spreadsheet |
| Service.RecordsWithout | src/main/java/com/osivia/spreadsheet/api/service/SpreadsheetService.java:114 | exactly the records of other spreadsheets remain, unchanged |
| Service.DeleteSpreadsheetKeepsInvariant | src/main/java/com/osivia/spreadsheet/api/service/SpreadsheetService.java:114 | removing a spreadsheet with its sheets, grids and records keeps the invariant |
| Service.GridsStayValid | src/main/java/com/osivia/spreadsheet/api/service/SpreadsheetService.java:141-165 | storing a sparse grid for an existing sheet keeps one sparse grid per sheet |
| Service.OrderedIsDistinct | src/main/java/com/osivia/spreadsheet/api/service/SpreadsheetService.java:571 | a list ordered by position names no sheet twice |
| Service.GrantGate | src/main/java/com/osivia/spreadsheet/api/service/SpreadsheetService.java:172-181 | grantPermission's checks in source order: checkPermission at ADMIN for a non-owner, then the target lookup, then the owner test; GrantGateIff states when it passes |
| Service.GrantGateIff | src/main/java/com/osivia/spreadsheet/api/service/SpreadsheetService.java:172-181 | a grant goes through exactly for the owner or an ADMIN, on an existing target other than the owner; the owner as target always fails |
| Service.GrantChecksCallerFirst | src/main/java/com/osivia/spreadsheet/api/service/SpreadsheetService.java:172-177 | a caller refused at ADMIN gets that refusal whatever the target |
| Service.RevokeGate | src/main/java/com/osivia/spreadsheet/api/service/SpreadsheetService.java:198-203 | revoke passes exactly for the owner with an existing target; a non-owner is Unauthorized |
| Service.OwnerGate | src/main/java/com/osivia/spreadsheet/api/service/SpreadsheetService.java:105-107 | the delete check passes exactly for the owner |
| Service.AdminGranteeCannotDelete | src/main/java/com/osivia/spreadsheet/api/service/SpreadsheetService.java:105-107 | an ADMIN grantee passes checkPermission at every level, yet deleteSpreadsheet refuses them |
| Service.RemoveFirst | src/main/java/com/osivia/spreadsheet/api/service/SpreadsheetService.java:571 | List.remove drops one occurrence when present, changes nothing otherwise, and keeps every other element |
| Service.RemoveFirstAt | src/main/java/com/osivia/spreadsheet/api/service/SpreadsheetService.java:571 | removing an element's first occurrence cuts the list at that position |
| Service.Entries | src/main/java/com/osivia/spreadsheet/api/service/SpreadsheetService.java:591 | each sheet as the sort sees it: its id and its orderIndex |
| Service.Ids | src/main/java/com/osivia/spreadsheet/api/service/SpreadsheetService.java:591 | the ids of the entries, in order |
| Service.IdsAppend | src/main/java/com/osivia/spreadsheet/api/service/SpreadsheetService.java:591 | taking ids distributes over concatenation |
| Service.IdsOfInsert | src/main/java/com/osivia/spreadsheet/api/service/SpreadsheetService.java:591 | inserting an entry adds its id |
| Service.IdsOfSort | src/main/java/com/osivia/spreadsheet/api/service/SpreadsheetService.java:591 | sorting permutes the ids |
| Service.SortedByOrderIndex | src/main/java/com/osivia/spreadsheet/api/service/SpreadsheetService.java:591 | the sorted list is a permutation of the sheets |
| Service.SortedByOrderIndexIsOrdered | src/main/java/com/osivia/spreadsheet/api/service/SpreadsheetService.java:591 | the sorted list is ordered by orderIndex |
| Service.SortedListIsKept | src/main/java/com/osivia/spreadsheet/api/service/SpreadsheetService.java:591 | a list already ordered by orderIndex is left as it is |
| Service.Renumber | src/main/java/com/osivia/spreadsheet/api/service/SpreadsheetService.java:594-597 | renumbering keeps the set of sheets |
| Service.RenumberKeeps | src/main/java/com/osivia/spreadsheet/api/service/SpreadsheetService.java:594-597 | renumbering changes no name or spreadsheet, and no sheet outside the list |
| Service.RenumberIsDense | src/main/java/com/osivia/spreadsheet/api/service/SpreadsheetService.java:594-597 | the sheet at position i gets orderIndex i |
| Service.RemainingSheets | src/main/java/com/osivia/spreadsheet/api/service/SpreadsheetService.java:571-591 | the sheets left after removal belong to the spreadsheet, are distinct, exclude the deleted one and are already sorted |
| Service.SpreadsheetService.Valid | src/main/java/com/osivia/spreadsheet/api/service/SpreadsheetService.java:56-598 | the class invariant: Service.Invariant over the current fields; every method requires and ensures it |
| Service.SpreadsheetService.constructor | src/main/java/com/osivia/spreadsheet/api/service/SpreadsheetService.java:33-54 | a service over the registered users and no spreadsheets satisfies the invariant |
| Service.SpreadsheetService.Access | src/main/java/com/osivia/spreadsheet/api/service/SpreadsheetService.java:297-324 | checkPermission on a spreadsheet that exists, with the owner test, the user lookup and the record lookup taken from the state |
| Service.SpreadsheetService.SpreadsheetGate | src/main/java/com/osivia/spreadsheet/api/service/SpreadsheetService.java:118-121 | a missing spreadsheet is NotFound before any permission check |
| Service.SpreadsheetService.SheetGate | src/main/java/com/osivia/spreadsheet/api/service/SpreadsheetService.java:142-145 | a missing sheet is NotFound; passing implies the sheet and its spreadsheet exist |
| Service.SpreadsheetService.StoreGrid | src/main/java/com/osivia/spreadsheet/api/service/SpreadsheetService.java:162 | saving a sheet's sparse grid changes only that grid and keeps the invariant |
| Service.SpreadsheetService.Commit | src/main/java/com/osivia/spreadsheet/api/service/SpreadsheetService.java:72 | helper shared by the state-changing methods, not an operation of the source: it stores a new state whose invariant the caller has proved, leaving the registered users unchanged |
| Service.SpreadsheetService.CreateSpreadsheet | src/main/java/com/osivia/spreadsheet/api/service/SpreadsheetService.java:56-74 | unknown user: NotFound, nothing changes; otherwise a new spreadsheet owned by the user with one empty sheet "Sheet1" at orderIndex 0 |
| Service.SpreadsheetService.CreateSheet | src/main/java/com/osivia/spreadsheet/api/service/SpreadsheetService.java:117-130 | fails exactly when the EDIT gate fails, with its error; otherwise a new empty sheet at the end of the list with orderIndex = number of sheets |
| Service.SpreadsheetService.UserSpreadsheets | src/main/java/com/osivia/spreadsheet/api/service/SpreadsheetService.java:84-99 | unknown user: NotFound; otherwise exactly the spreadsheets owned by the user or shared with them |
| Service.SpreadsheetService.DeleteSpreadsheet | src/main/java/com/osivia/spreadsheet/api/service/SpreadsheetService.java:101-115 | missing: NotFound; non-owner: Unauthorized, nothing changes; otherwise the spreadsheet goes with its sheets, grids and records |
| Service.SpreadsheetService.GrantOutcome | src/main/java/com/osivia/spreadsheet/api/service/SpreadsheetService.java:167-181 | grantPermission's outcome in the current state: NotFound for a missing spreadsheet, otherwise GrantGate |
| Service.SpreadsheetService.GrantPermission | src/main/java/com/osivia/spreadsheet/api/service/SpreadsheetService.java:167-192 | the outcome follows the checks in source order; on success the target's record holds the level and nothing else changes |
| Service.SpreadsheetService.RevokeOutcome | src/main/java/com/osivia/spreadsheet/api/service/SpreadsheetService.java:194-203 | revokePermission's outcome in the current state: NotFound for a missing spreadsheet, otherwise RevokeGate |
| Service.SpreadsheetService.RevokePermission | src/main/java/com/osivia/spreadsheet/api/service/SpreadsheetService.java:194-207 | owner only and an existing target; on success the target's record is gone (a no-op if absent) |
| Service.SpreadsheetService.UpdateCells | src/main/java/com/osivia/spreadsheet/api/service/SpreadsheetService.java:141-165 | the EDIT gate decides; on success only the sheet's grid changes, to the batch applied in order |
| Service.SpreadsheetService.UpdateRow | src/main/java/com/osivia/spreadsheet/api/service/SpreadsheetService.java:386-408 | the EDIT gate decides; on success only the sheet's grid changes, to the replaced row |
| Service.SpreadsheetService.AppendRow | src/main/java/com/osivia/spreadsheet/api/service/SpreadsheetService.java:413-437 | the EDIT gate decides; on success the row is written at the first unused index, which is returned |
| Service.SpreadsheetService.AppendMultipleRows | src/main/java/com/osivia/spreadsheet/api/service/SpreadsheetService.java:442-471 | the EDIT gate decides; on success the rows are written from the first unused index and their number is returned |
| Service.SpreadsheetService.DeleteRows | src/main/java/com/osivia/spreadsheet/api/service/SpreadsheetService.java:476-494 | the EDIT gate decides; on success only the sheet's grid changes, to the rows deleted and shifted up |
| Service.SpreadsheetService.InsertColumn | src/main/java/com/osivia/spreadsheet/api/service/SpreadsheetService.java:499-524 | the EDIT gate decides; on success only the sheet's grid changes, to the column inserted |
| Service.SpreadsheetService.DeleteColumn | src/main/java/com/osivia/spreadsheet/api/service/SpreadsheetService.java:529-545 | the EDIT gate decides; on success only the sheet's grid changes, to the column deleted |
| Service.SpreadsheetService.DeleteSheetGate | src/main/java/com/osivia/spreadsheet/api/service/SpreadsheetService.java:553-562 | passing implies the sheet and its spreadsheet exist |
| Service.SpreadsheetService.DeleteSheet | src/main/java/com/osivia/spreadsheet/api/service/SpreadsheetService.java:552-581 | missing sheet, EDIT and last-sheet checks in order; on success the sheet and its grid go and the others keep their order, numbered 0, 1, 2, … |
| Service.SpreadsheetService.RemoveSheet | src/main/java/com/osivia/spreadsheet/api/service/SpreadsheetService.java:564-580 | the steps after the checks leave the state that SheetRemoved describes and keep the invariant |
| Service.UpdateSheetOrderIndices | src/main/java/com/osivia/spreadsheet/api/service/SpreadsheetService.java:587-598 | the list is sorted by orderIndex and the sheet at position i gets orderIndex i |
| Service.SheetRemoved | src/main/java/com/osivia/spreadsheet/api/service/SpreadsheetService.java:552-598 | the state deleteSheet leaves: the other sheets listed in their previous order and numbered by position, the sheet and its grid gone, everything else untouched; DeleteSheetKeepsInvariant proves it keeps the invariant |
| Service.RemoveSheetStep | src/main/java/com/osivia/spreadsheet/api/service/SpreadsheetService.java:564-580 | removing and renumbering gives the SheetRemoved state, which keeps the invariant |
| Service.RenumberedRest | src/main/java/com/osivia/spreadsheet/api/service/SpreadsheetService.java:571-597 | the renumbered sheets without the deleted one: the remaining ones at their new positions, all others untouched |
| Service.RestIsDistinct | src/main/java/com/osivia/spreadsheet/api/service/SpreadsheetService.java:571 | cutting one position from a list without repeats leaves none and drops that element |
| Service.RestStaysSorted | src/main/java/com/osivia/spreadsheet/api/service/SpreadsheetService.java:571 | the remaining orderIndex values are still increasing |
| Service.DeleteSheetKeepsInvariant | src/main/java/com/osivia/spreadsheet/api/service/SpreadsheetService.java:552-598 | the renumbered remaining list is ordered again and the invariant holds |
| Service.RemainingRest | src/main/java/com/osivia/spreadsheet/api/service/SpreadsheetService.java:565-577 | the grid, id, owner and record parts of the invariant survive the deletion |
| Service.RemainingListsOrdered | src/main/java/com/osivia/spreadsheet/api/service/SpreadsheetService.java:571-597 | every list is ordered by position after the deletion |
| Service.RemainingSheetsListed | src/main/java/com/osivia/spreadsheet/api/service/SpreadsheetService.java:571-577 | every remaining sheet is still listed by its spreadsheet |

## Left out

- **I/O.** Left out because these are byte and file I/O with no decision logic:
  - the ZIP stream itself, and unpacking into a temporary directory;
  - Jackson's JSON encoding of metadata.json;
  - the PrintWriter's platform line separator, which the model writes as "\n";
  - the upload directory.

  An archive is modelled as its metadata together with a map from entry path to text.
- **ExportSpreadsheetToZip** leaves out the spreadsheet lookup of exportSpreadsheetToZip and the
  export's media part.
  - The lookup is a repository read. Its RuntimeException is not modelled; the export takes the
    spreadsheet's name, description, sheets and media metadata as arguments.
  - The media part copies file bytes, so media entries are not part of the exported map.
- **OpenCSV.** OpenCSV is not part of this model. Its CSVReader is replaced by the reader in
  module Csv, and CsvValidationException is not modelled. The replacement is not equivalent:
  OpenCSV's default parser treats '\\' in any field as an escape character, and its reader
  rejoins the lines of a multi-line quoted field with '\n', where module Csv keeps every quoted
  character, '\r' included, as written. The round trips are therefore properties of the writer
  together with module Csv's reader, not of the program with OpenCSV.
- **ExportImportRoundTrip and SheetRoundTrip** hold only for values that are recoverable
  (`Csv.Recoverable`): the writer quotes the value, because it contains ',', '"' or '\n', or
  the value contains no '\r'. A value such as "a\rb" is written unquoted and read back as two
  records (CarriageReturnBreaksRoundTrip); a value such as "x\r,y" is quoted and recovered.
- **Media bytes.** Left out because they are file I/O: copying the bytes, the file name that
  uploadMedia records, the download resource checks, and the deletion of backing files
  (`deleteMediaFile`, and the loop in deleteSpreadsheet).
- **UUIDs.** `UUID.randomUUID()` is a parameter: a string, or a function from the k-th media
  file to its UUID.
- **Database ids.** Generated ids are one deterministic counter `nextId`.
- **Transactions, concurrency, timestamps and DTOs.** Left out:
  - `convertToDTO`, `convertToSheetDTO` and `getPermissionRepository`;
  - the creation and update times.

  Importing builds the whole result before anything is created. This matches the source's
  transactional import when it rolls back on failure.
- **exportToExcel, importFromExcel and getCellValueAsString.** Left out because they depend on
  Apache POI.
- **getSpreadsheet and getSheet.** They are a VIEW gate followed by a DTO conversion. The gate is
  SpreadsheetGate or SheetGate at VIEW.
- **Committing an import.** ImportSpreadsheetFromZip returns the spreadsheet, sheets and media
  it would create. Storing them into SpreadsheetService is not modelled, so no lemma shows that an
  import leaves a state satisfying Service.Invariant. ImportSheetsArePresent proves the imported
  sheets are numbered 0, 1, 2, … in list order, which is the dense ordering the invariant asks for.
- **Null lists.** The request lists of updateCells, updateRow, appendRow, appendMultipleRows and
  insertColumn are sequences in the model, so a null list cannot be passed. In the source a null
  list throws a NullPointerException in the for-each loop (SpreadsheetService.java:147, :397,
  :454). A null value inside a list is modelled, as `None`.
- **Index range.** Java `Integer` indices are `nat` in the model, so negative row and column
  indices and a negative count are not modelled.
  - `deleteRows` with `count = 0` is modelled and changes nothing (DeleteNoRows).
  - The lower bound `start + count - 1` may be -1, as in the source.
- **Integer overflow.** With unbounded integers, the overflow of `maxRowIndex + 1` or of
  `orderIndex` is not modelled.
- **createSheet's list update.** createSheet only saves the new sheet. The model adds it to the
  end of its spreadsheet's list, which is how the `orderIndex ASC` ordered collection next reads
  it.
- **Two behaviours of the import and export code** that the model follows as written:
  - importSpreadsheetFromZip skips a metadata entry whose CSV file is missing; it creates no
    sheet for it (ZipExportImportService.java:220-238).
  - Two sheet names that sanitize to the same file name make the second `putNextEntry` fail
    (ZipExportImportService.java:89-103); this is DuplicateEntry in the model.
- PresentSheets and PresentMedia (and so ImportSheets, ImportMedia, ImportSheetsFromZip and
  ImportMediaFromZip) find an archive entry by comparing the string "sheets/" + filename or
  "media/" + filename with the entry names. The source instead resolves paths: extractZip rewrites '\\' to '/' and resolves
  each entry name against the temporary directory (ZipExportImportService.java:327-328), and the
  import resolves the metadata's filename against the sheets or media directory (:223, :247).
  Path resolution and normalisation are not modelled. On archives the export writes the two
  agree. On other metadata they can differ: "./a.csv" or "x/../a.csv" finds the file
  sheets/a.csv in the source and nothing in the model, and an empty filename resolves to the
  directory itself, which exists, so the source creates the sheet and then fails reading it,
  where the model skips the sheet.
