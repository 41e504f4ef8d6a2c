/**
 * The ZIP export and import of a spreadsheet (ZipExportImportService): the CSV file names, the
 * CSV text of one sheet, the cells read back from it, and the ordering of the imported sheets.
 *
 * An archive is its metadata.json, already read, together with its other entries by path; the
 * text of each entry under "sheets/" is the CSV of one sheet.
 */
module Archive {
  import opened Wrappers
  import opened Errors
  import opened CellRepository
  import Csv
  import MediaGuards

  // ---------------------------------------------------------------- file names

  /** The characters `[a-zA-Z0-9.-]`, which sanitizeFilename keeps. */
  predicate Kept(c: char)
  {
    'a' <= c <= 'z' || 'A' <= c <= 'Z' || '0' <= c <= '9' || c == '.' || c == '-'
  }

  /** sanitizeFilename: `replaceAll("[^a-zA-Z0-9.-]", "_")`, one character at a time. */
  function SanitizeFilename(name: string): (r: string)
    ensures |r| == |name|
  {
    if name == [] then []
    else [if Kept(name[0]) then name[0] else '_'] + SanitizeFilename(name[1..])
  }

  /** Every kept character stays where it is and every other one becomes '_'. */
  lemma {:induction false} SanitizeIsCharacterMap(name: string)
    ensures forall i :: 0 <= i < |name| ==>
              SanitizeFilename(name)[i] == if Kept(name[i]) then name[i] else '_'
    decreases |name|
  {
    if name != [] {
      SanitizeIsCharacterMap(name[1..]);
      var r := SanitizeFilename(name);
      forall i | 0 < i < |name|
        ensures r[i] == if Kept(name[i]) then name[i] else '_'
      {
        assert r[i] == SanitizeFilename(name[1..])[i - 1];
      }
    }
  }

  /** The result is made of kept characters and '_' only, and a name of kept characters is unchanged. */
  lemma SanitizedIsKept(name: string)
    ensures forall i :: 0 <= i < |name| ==>
              Kept(SanitizeFilename(name)[i]) || SanitizeFilename(name)[i] == '_'
    ensures (forall i :: 0 <= i < |name| ==> Kept(name[i])) ==> SanitizeFilename(name) == name
  {
    SanitizeIsCharacterMap(name);
  }

  /** Sanitizing twice is sanitizing once. */
  lemma SanitizeIsIdempotent(name: string)
    ensures SanitizeFilename(SanitizeFilename(name)) == SanitizeFilename(name)
  {
    var r := SanitizeFilename(name);
    SanitizeIsCharacterMap(name);
    SanitizeIsCharacterMap(r);
  }

  /** Distinct names can share a file name: "A/B" and "A B" both become "A_B". */
  lemma SanitizeCollides()
    ensures "A/B" != "A B"
    ensures SanitizeFilename("A/B") == SanitizeFilename("A B") == "A_B"
  {
    assert "A/B"[1] != "A B"[1];
  }

  /** The file name of a sheet's CSV, as recorded in the sheet's metadata. */
  function CsvFilename(sheetName: string): (f: string)
    ensures |f| == |sheetName| + 4 && f[|sheetName|..] == ".csv"
  {
    SanitizeFilename(sheetName) + ".csv"
  }

  /** The archive path of a file under "sheets/". */
  function SheetEntry(filename: string): (p: string)
    ensures |p| == 7 + |filename| && p[..7] == "sheets/" && p[7..] == filename
  {
    "sheets/" + filename
  }

  /** The archive path of a file under "media/". */
  function MediaEntry(filename: string): (p: string)
    ensures |p| == 6 + |filename| && p[..6] == "media/" && p[6..] == filename
  {
    "media/" + filename
  }

  /** The directory `dir` exists in the extracted archive: some entry lies under it. */
  predicate DirExists(entries: map<string, string>, dir: string)
  {
    exists p :: p in entries && |dir| <= |p| && p[..|dir|] == dir
  }

  // ---------------------------------------------------------------- writing a sheet

  /** The largest row index of the cells, 0 for no cells: maxRow after the first loop. */
  function MaxRow(g: Grid): (m: nat)
    ensures forall a :: a in g ==> a.0 <= m
    ensures g != map[] ==> exists a :: a in g && a.0 == m
    decreases |g|
  {
    if g == map[] then 0
    else
      var first := First(g);
      RemoveOneSize(g, first);
      var m := MaxRow(g - {first});
      if first.0 > m then first.0 else m
  }

  /** The largest column index of the cells, 0 for no cells: maxCol after the first loop. */
  function MaxColumn(g: Grid): (m: nat)
    ensures forall a :: a in g ==> a.1 <= m
    ensures g != map[] ==> exists a :: a in g && a.1 == m
    decreases |g|
  {
    if g == map[] then 0
    else
      var first := First(g);
      RemoveOneSize(g, first);
      var m := MaxColumn(g - {first});
      if first.1 > m then first.1 else m
  }

  /** maxRow + 1: the number of lines the writer emits. */
  function Height(g: Grid): nat
  {
    MaxRow(g) + 1
  }

  /** maxCol + 1: the number of fields on each line. */
  function Width(g: Grid): nat
  {
    MaxColumn(g) + 1
  }

  /** The value the writer looks up for (row, col): the cell's value, or "" for no cell. */
  function CellText(g: Grid, row: nat, col: nat): string
  {
    if (row, col) in g then g[(row, col)] else ""
  }

  /** Line `row` of the rectangle: `width` values. */
  function DenseRow(g: Grid, row: nat, width: nat): (line: seq<string>)
    ensures |line| == width
    ensures forall c :: 0 <= c < width ==> line[c] == CellText(g, row, c)
  {
    seq(width, c requires 0 <= c < width => CellText(g, row, c))
  }

  /** The grid as a `height` by `width` rectangle of values. */
  function Dense(g: Grid, height: nat, width: nat): (lines: seq<seq<string>>)
    ensures |lines| == height
    ensures forall r :: 0 <= r < height ==> lines[r] == DenseRow(g, r, width)
  {
    seq(height, r requires 0 <= r < height => DenseRow(g, r, width))
  }

  /** The CSV text writeSheetToCsv emits for a sheet. */
  function SheetCsv(g: Grid): string
  {
    Csv.FormatLines(Dense(g, Height(g), Width(g)))
  }

  /** Every cell of `g` lies inside the `h` by `w` rectangle. */
  predicate Covers(g: Grid, h: nat, w: nat)
  {
    forall a :: a in g ==> a.0 < h && a.1 < w
  }

  /**
   * The rectangle the writer emits: maxRow + 1 lines of maxCol + 1 fields. Both maxima start at
   * 0, so there is always at least one line of at least one field; every cell lies inside, and a
   * sheet with cells has one on the last line and one in the last column, so it is the smallest
   * such rectangle.
   */
  lemma SheetShape(g: Grid)
    ensures Height(g) >= 1 && Width(g) >= 1
    ensures Covers(g, Height(g), Width(g))
    ensures g != map[] ==> exists a :: a in g && a.0 == Height(g) - 1
    ensures g != map[] ==> exists a :: a in g && a.1 == Width(g) - 1
  {
  }

  /** An empty sheet is exported as one empty line. */
  lemma EmptySheetIsOneEmptyLine()
    ensures SheetCsv(map[]) == "\n"
  {
    var g: Grid := map[];
    assert g.Keys == {};
    var lines := Dense(g, 1, 1);
    assert lines[0] == DenseRow(g, 0, 1) == [""];
    assert lines == [[""]];
    assert Csv.FormatLine([""]) == "";
  }

  /** A running maximum that started at 0 and saw every cell is MaxRow. */
  lemma MaxRowUnique(g: Grid, m: nat)
    requires forall a :: a in g ==> a.0 <= m
    requires m == 0 || exists a :: a in g && a.0 == m
    ensures m == MaxRow(g)
  {
  }

  /** A running maximum that started at 0 and saw every cell is MaxColumn. */
  lemma MaxColumnUnique(g: Grid, m: nat)
    requires forall a :: a in g ==> a.1 <= m
    requires m == 0 || exists a :: a in g && a.1 == m
    ensures m == MaxColumn(g)
  {
  }

  /** The first loop of writeSheetToCsv: running maxima of the row and column indices, from 0. */
  method CellBounds(g: Grid) returns (maxRow: nat, maxCol: nat)
    ensures maxRow + 1 == Height(g) && maxCol + 1 == Width(g)
  {
    maxRow, maxCol := 0, 0;
    var pending := g;
    while pending != map[]
      invariant pending.Keys <= g.Keys
      invariant forall a :: a in g && a !in pending ==> a.0 <= maxRow && a.1 <= maxCol
      invariant maxRow == 0 || exists a :: a in g && a !in pending && a.0 == maxRow
      invariant maxCol == 0 || exists a :: a in g && a !in pending && a.1 == maxCol
      decreases |pending|
    {
      var a :| a in pending;
      maxRow := if a.0 > maxRow then a.0 else maxRow;
      maxCol := if a.1 > maxCol then a.1 else maxCol;
      RemoveOneSize(pending, a);
      pending := pending - {a};
    }
    MaxRowUnique(g, maxRow);
    MaxColumnUnique(g, maxCol);
  }

  /** The inner loop of writeSheetToCsv: the fields of one line, ',' before every field but the first. */
  method WriteLine(g: Grid, row: nat, maxCol: nat) returns (line: string)
    ensures line == Csv.FormatLine(DenseRow(g, row, maxCol + 1))
  {
    ghost var quoted := Csv.QuoteAll(DenseRow(g, row, maxCol + 1));
    line := "";
    var col := 0;
    while col <= maxCol
      invariant 0 <= col <= maxCol + 1
      invariant line == Csv.JoinFields(quoted[..col])
      decreases maxCol + 1 - col
    {
      if col > 0 {
        line := line + ",";
      }
      var value := if (row, col) in g then g[(row, col)] else "";
      if ',' in value || '"' in value || '\n' in value {
        value := "\"" + Csv.DoubleQuotes(value) + "\"";
      }
      Csv.JoinFieldsSnoc(quoted[..col], value);
      Csv.PrefixSnoc(quoted, col);
      line := line + value;
      col := col + 1;
    }
    assert quoted[..col] == quoted;
  }

  /** writeSheetToCsv: the bounds, then one line per row, each followed by "\n". */
  method WriteSheetToCsv(g: Grid) returns (text: string)
    ensures text == SheetCsv(g)
  {
    var maxRow, maxCol := CellBounds(g);
    ghost var lines := Dense(g, maxRow + 1, maxCol + 1);
    text := "";
    var row := 0;
    while row <= maxRow
      invariant 0 <= row <= maxRow + 1
      invariant text == Csv.FormatLines(lines[..row])
      decreases maxRow + 1 - row
    {
      var line := WriteLine(g, row, maxCol);
      Csv.FormatLinesSnoc(lines[..row], lines[row]);
      Csv.PrefixSnoc(lines, row);
      text := text + line + "\n";
      row := row + 1;
    }
    assert lines[..row] == lines;
  }

  // ---------------------------------------------------------------- reading a sheet

  /** The field at `a` exists and is not empty: record a.0, field a.1. */
  predicate Filled(records: seq<seq<string>>, a: Addr)
  {
    a.0 < |records| && a.1 < |records[a.0]| && records[a.0][a.1] != ""
  }

  /** The addresses of the non-empty fields. */
  function FilledAddrs(records: seq<seq<string>>): (s: set<Addr>)
    ensures forall a :: a in s <==> Filled(records, a)
  {
    set r, c | 0 <= r < |records| && 0 <= c < |records[r]| && records[r][c] != "" :: (r, c)
  }

  /** The cells importCellsFromCsv saves for the records of a CSV: record k is row k, field j column j. */
  function CellsOf(records: seq<seq<string>>): (g: Grid)
    ensures Sparse(g)
    ensures forall a :: a in g <==> Filled(records, a)
    ensures forall a :: a in g ==> Filled(records, a) && g[a] == records[a.0][a.1]
  {
    map a | a in FilledAddrs(records) :: records[a.0][a.1]
  }

  /** One more field at the end of the last record adds its cell only when it is not empty. */
  lemma CellsOfAppendField(rs: seq<seq<string>>, fields: seq<string>, v: string)
    ensures CellsOf(rs + [fields + [v]]) ==
            if v == "" then CellsOf(rs + [fields]) else CellsOf(rs + [fields])[(|rs|, |fields|) := v]
  {
    var a, b := rs + [fields + [v]], rs + [fields];
    var ga, gb := CellsOf(a), CellsOf(b);
    var want := if v == "" then gb else gb[(|rs|, |fields|) := v];
    forall k: Addr
      ensures k in ga <==> k in want
      ensures k in ga ==> ga[k] == want[k]
    {
      if k.0 < |rs| {
        assert a[k.0] == b[k.0];
        assert Filled(a, k) <==> Filled(b, k);
      } else if k.0 == |rs| {
        assert a[k.0] == fields + [v] && b[k.0] == fields;
        if k.1 < |fields| {
          assert (fields + [v])[k.1] == fields[k.1];
        }
      } else {
        assert !Filled(a, k) && !Filled(b, k);
      }
    }
    assert ga == want;
  }

  /** An empty record adds no cell. */
  lemma CellsOfEmptyRecord(rs: seq<seq<string>>)
    ensures CellsOf(rs + [[]]) == CellsOf(rs)
  {
    var a := rs + [[]];
    assert forall k: Addr :: Filled(a, k) <==> Filled(rs, k);
  }

  /** importCellsFromCsv: a row counter that advances for every record, empty ones too. */
  method ImportCellsFromCsv(records: seq<seq<string>>) returns (g: Grid)
    ensures g == CellsOf(records)
  {
    g := map[];
    var row := 0;
    while row < |records|
      invariant 0 <= row <= |records|
      invariant g == CellsOf(records[..row])
    {
      var fields := records[row];
      CellsOfEmptyRecord(records[..row]);
      var col := 0;
      while col < |fields|
        invariant 0 <= col <= |fields|
        invariant g == CellsOf(records[..row] + [fields[..col]])
      {
        var value := fields[col];
        CellsOfAppendField(records[..row], fields[..col], value);
        Csv.PrefixSnoc(fields, col);
        if value != "" {
          g := g[(row, col) := value];
        }
        col := col + 1;
      }
      assert fields[..col] == fields;
      Csv.PrefixSnoc(records, row);
      row := row + 1;
    }
    assert records[..row] == records;
  }

  /** A rectangle that covers a sheet's cells holds exactly those cells. */
  lemma CellsOfDense(g: Grid, h: nat, w: nat)
    requires Sparse(g) && Covers(g, h, w)
    ensures CellsOf(Dense(g, h, w)) == g
  {
    var lines := Dense(g, h, w);
    var d := CellsOf(lines);
    forall k: Addr
      ensures k in d <==> k in g
      ensures k in d ==> d[k] == g[k]
    {
      if k.0 < h {
        assert lines[k.0] == DenseRow(g, k.0, w);
      }
    }
    assert d == g;
  }

  /** Every field of the rectangle is one the reader gets back when every cell value is. */
  lemma DenseRecoverable(g: Grid, h: nat, w: nat)
    requires forall a :: a in g ==> Csv.Recoverable(g[a])
    ensures forall k, i :: 0 <= k < h && 0 <= i < w ==> Csv.Recoverable(Dense(g, h, w)[k][i])
  {
    forall k, i | 0 <= k < h && 0 <= i < w
      ensures Csv.Recoverable(Dense(g, h, w)[k][i])
    {
      assert Dense(g, h, w)[k] == DenseRow(g, k, w);
    }
  }

  /**
   * The export/import round trip of one sheet: reading back the CSV of a sheet gives the same
   * cells at the same addresses and no empty cells, provided each value is one the reader gets
   * back (no '\r', or also a ',', '"' or '\n' so that it is quoted).
   */
  lemma SheetRoundTrip(g: Grid)
    requires Sparse(g)
    requires forall a :: a in g ==> Csv.Recoverable(g[a])
    ensures CellsOf(Csv.Parse(SheetCsv(g))) == g
  {
    SheetShape(g);
    var h, w := Height(g), Width(g);
    var lines := Dense(g, h, w);
    assert SheetCsv(g) == Csv.FormatLines(lines);
    DenseRecoverable(g, h, w);
    assert forall k :: 0 <= k < |lines| ==> |lines[k]| == w;
    Csv.ParseFormatLines(lines);
    CellsOfDense(g, h, w);
  }

  /** A sheet of one cell at (0, 0) is written as one line of one field. */
  lemma OneCellSheet(v: string)
    ensures SheetCsv(map[(0, 0) := v]) == Csv.FormatLines([[v]])
  {
    var g: Grid := map[(0, 0) := v];
    SheetShape(g);
    assert Height(g) == 1 && Width(g) == 1;
    var lines := Dense(g, 1, 1);
    assert lines[0] == DenseRow(g, 0, 1) == [v];
    assert lines == [[v]];
  }

  /** The records of the text "a\rb\n" give two cells, one per row. */
  lemma TwoRecordsTwoCells()
    ensures CellsOf([["a"], ["b"]]) == map[(0, 0) := "a", (1, 0) := "b"]
  {
    var back := CellsOf([["a"], ["b"]]);
    var want: Grid := map[(0, 0) := "a", (1, 0) := "b"];
    forall k: Addr
      ensures k in back <==> k in want
    {
    }
    assert back == want;
  }

  /** A lone '\r' breaks the round trip: the cell "a\rb" comes back as two cells of two rows. */
  lemma CarriageReturnBreaksRoundTrip()
    ensures !Csv.Recoverable("a\rb")
    ensures CellsOf(Csv.Parse(SheetCsv(map[(0, 0) := "a\rb"]))) == map[(0, 0) := "a", (1, 0) := "b"]
  {
    assert "a\rb"[1] == '\r';
    OneCellSheet("a\rb");
    Csv.CarriageReturnSplitsRecord();
    TwoRecordsTwoCells();
  }

  // ---------------------------------------------------------------- the archive

  /** A sheet's entry in metadata.json: its name and the file name of its CSV. */
  datatype SheetMetadata = SheetMetadata(name: string, filename: string)

  /** A media file's entry in metadata.json. */
  datatype MediaMetadata = MediaMetadata(filename: string, contentType: string, size: int)

  /** metadata.json: the spreadsheet's name and description, its sheets and its media files. */
  datatype Metadata = Metadata(name: string, description: string, sheets: seq<SheetMetadata>, mediaFiles: seq<MediaMetadata>)

  /** An extracted archive: metadata.json when it is present, and the text of every other entry by path. */
  datatype Zip = Zip(metadata: Option<Metadata>, entries: map<string, string>)

  /** A sheet as the export reads it, in the spreadsheet's list order: its name and its cells. */
  type SheetData = (string, Grid)

  /** No two sheets share a CSV file name, so no archive entry is written twice. */
  predicate DistinctFilenames(sheets: seq<SheetData>)
  {
    forall i, j :: 0 <= i < j < |sheets| ==> CsvFilename(sheets[i].0) != CsvFilename(sheets[j].0)
  }

  /** The archive path of sheet i's CSV. */
  function SheetPath(sheet: SheetData): string
  {
    SheetEntry(CsvFilename(sheet.0))
  }

  /** The metadata entry of one sheet: its name and its CSV file name. */
  function SheetMeta(sheet: SheetData): SheetMetadata
  {
    SheetMetadata(sheet.0, CsvFilename(sheet.0))
  }

  /** The CSV text of one sheet. */
  function SheetText(sheet: SheetData): string
  {
    SheetCsv(sheet.1)
  }

  /** `f` applied to every element, in order. */
  function MapSeq<A, B>(f: A -> B, s: seq<A>): (r: seq<B>)
    ensures |r| == |s|
    ensures forall i :: 0 <= i < |s| ==> r[i] == f(s[i])
  {
    seq(|s|, i requires 0 <= i < |s| => f(s[i]))
  }

  /** Mapping one more element adds its image at the end. */
  lemma MapSeqSnoc<A, B>(f: A -> B, s: seq<A>, i: nat)
    requires i < |s|
    ensures MapSeq(f, s[..i + 1]) == MapSeq(f, s[..i]) + [f(s[i])]
  {
    var a, b := MapSeq(f, s[..i + 1]), MapSeq(f, s[..i]) + [f(s[i])];
    forall j | 0 <= j < |a|
      ensures a[j] == b[j]
    {
      if j < i {
        assert s[..i + 1][j] == s[..i][j];
      }
    }
  }

  /** The sheets' entries of metadata.json, one per sheet in list order. */
  function ExportedMetadata(sheets: seq<SheetData>): (ms: seq<SheetMetadata>)
    ensures |ms| == |sheets|
    ensures forall i :: 0 <= i < |sheets| ==> ms[i].name == sheets[i].0 && SheetEntry(ms[i].filename) == SheetPath(sheets[i])
  {
    MapSeq(SheetMeta, sheets)
  }

  /** The map made by putting keys[i] := values[i] in turn, a later key replacing an earlier one. */
  function Assoc<K, V>(keys: seq<K>, values: seq<V>): map<K, V>
    requires |keys| == |values|
    decreases |keys|
  {
    if keys == [] then map[]
    else Assoc(keys[..|keys| - 1], values[..|values| - 1])[keys[|keys| - 1] := values[|values| - 1]]
  }

  /** The keys of the map are the keys put. */
  lemma {:induction false} AssocKeys<K, V>(keys: seq<K>, values: seq<V>)
    requires |keys| == |values|
    ensures forall k :: k in Assoc(keys, values) <==> k in keys
    decreases |keys|
  {
    if keys != [] {
      var init := keys[..|keys| - 1];
      AssocKeys(init, values[..|values| - 1]);
      assert keys == init + [keys[|keys| - 1]];
    }
  }

  /** With no key put twice, each key maps to its own value. */
  lemma {:induction false} AssocValues<K, V>(keys: seq<K>, values: seq<V>)
    requires |keys| == |values|
    requires forall i, j :: 0 <= i < j < |keys| ==> keys[i] != keys[j]
    ensures forall i :: 0 <= i < |keys| ==> keys[i] in Assoc(keys, values) && Assoc(keys, values)[keys[i]] == values[i]
    decreases |keys|
  {
    if keys != [] {
      var n := |keys| - 1;
      var ks, vs := keys[..n], values[..n];
      AssocValues(ks, vs);
      assert forall i :: 0 <= i < n ==> ks[i] == keys[i] && vs[i] == values[i];
    }
  }

  /** Putting one more key. */
  lemma AssocSnoc<K, V>(keys: seq<K>, values: seq<V>, k: K, v: V)
    requires |keys| == |values|
    ensures Assoc(keys + [k], values + [v]) == Assoc(keys, values)[k := v]
  {
    assert (keys + [k])[..|keys|] == keys;
    assert (values + [v])[..|values|] == values;
  }

  /** The archive paths of the sheets' CSVs, in list order. */
  function SheetPaths(sheets: seq<SheetData>): (ps: seq<string>)
  {
    MapSeq(SheetPath, sheets)
  }

  /** The sheets' CSV texts, in list order. */
  function SheetCsvs(sheets: seq<SheetData>): seq<string>
  {
    MapSeq(SheetText, sheets)
  }

  /** The entries the export writes under "sheets/", one after the other. */
  function ExportedEntries(sheets: seq<SheetData>): map<string, string>
  {
    Assoc(SheetPaths(sheets), SheetCsvs(sheets))
  }

  /** The export writes exactly one entry per sheet. */
  lemma ExportedEntriesKeys(sheets: seq<SheetData>)
    ensures forall i :: 0 <= i < |sheets| ==> SheetPath(sheets[i]) in ExportedEntries(sheets)
    ensures forall p :: p in ExportedEntries(sheets) <==> p in SheetPaths(sheets)
  {
    var ps := SheetPaths(sheets);
    AssocKeys(ps, SheetCsvs(sheets));
    assert forall i :: 0 <= i < |sheets| ==> ps[i] in ps;
  }

  /**
   * Each sheet's entry holds that sheet's CSV, under the path its metadata names, when no two
   * sheets share a file name.
   */
  lemma ExportedEntriesValues(sheets: seq<SheetData>)
    requires DistinctFilenames(sheets)
    ensures forall i :: 0 <= i < |sheets| ==>
              SheetPath(sheets[i]) in ExportedEntries(sheets) &&
              ExportedEntries(sheets)[SheetPath(sheets[i])] == SheetCsv(sheets[i].1)
  {
    var ps := SheetPaths(sheets);
    forall i, j | 0 <= i < j < |ps|
      ensures ps[i] != ps[j]
    {
      if ps[i] == ps[j] {
        SheetEntryInjective(CsvFilename(sheets[i].0), CsvFilename(sheets[j].0));
      }
    }
    AssocValues(ps, SheetCsvs(sheets));
  }

  /** Paths that differ after "sheets/" name different files. */
  lemma SheetEntryInjective(a: string, b: string)
    requires SheetEntry(a) == SheetEntry(b)
    ensures a == b
  {
    assert SheetEntry(a)[7..] == a;
  }

  /** Distinct file names stay distinct in every prefix. */
  lemma DistinctPrefix(sheets: seq<SheetData>, n: nat)
    requires n <= |sheets|
    ensures DistinctFilenames(sheets) ==> DistinctFilenames(sheets[..n])
  {
    if DistinctFilenames(sheets) {
      forall j, k | 0 <= j < k < n
        ensures CsvFilename(sheets[..n][j].0) != CsvFilename(sheets[..n][k].0)
      {
        assert sheets[..n][j] == sheets[j] && sheets[..n][k] == sheets[k];
      }
    }
  }

  /** One more sheet adds its metadata entry at the end. */
  lemma MetadataStep(sheets: seq<SheetData>, i: nat)
    requires i < |sheets|
    ensures ExportedMetadata(sheets[..i + 1]) == ExportedMetadata(sheets[..i]) + [SheetMetadata(sheets[i].0, CsvFilename(sheets[i].0))]
  {
    MapSeqSnoc(SheetMeta, sheets, i);
  }

  /** One more sheet adds its path at the end. */
  lemma PathsStep(sheets: seq<SheetData>, i: nat)
    requires i < |sheets|
    ensures SheetPaths(sheets[..i + 1]) == SheetPaths(sheets[..i]) + [SheetPath(sheets[i])]
  {
    MapSeqSnoc(SheetPath, sheets, i);
  }

  /** One more sheet adds its CSV at the end. */
  lemma CsvsStep(sheets: seq<SheetData>, i: nat)
    requires i < |sheets|
    ensures SheetCsvs(sheets[..i + 1]) == SheetCsvs(sheets[..i]) + [SheetCsv(sheets[i].1)]
  {
    MapSeqSnoc(SheetText, sheets, i);
  }

  /** One more sheet writes its CSV under its own path. */
  lemma EntriesStep(sheets: seq<SheetData>, i: nat)
    requires i < |sheets|
    ensures ExportedEntries(sheets[..i + 1]) == ExportedEntries(sheets[..i])[SheetPath(sheets[i]) := SheetCsv(sheets[i].1)]
  {
    var prefix := sheets[..i];
    PathsStep(sheets, i);
    CsvsStep(sheets, i);
    AssocSnoc(SheetPaths(prefix), SheetCsvs(prefix), SheetPath(sheets[i]), SheetCsv(sheets[i].1));
  }

  /** One more sheet keeps the file names distinct exactly when no earlier sheet has its file name. */
  lemma DistinctExtend(sheets: seq<SheetData>, i: nat)
    requires i < |sheets| && DistinctFilenames(sheets[..i])
    ensures DistinctFilenames(sheets[..i + 1]) <==>
            forall j :: 0 <= j < i ==> CsvFilename(sheets[j].0) != CsvFilename(sheets[i].0)
  {
    var prefix, longer := sheets[..i], sheets[..i + 1];
    if forall j :: 0 <= j < i ==> CsvFilename(sheets[j].0) != CsvFilename(sheets[i].0) {
      forall j, k | 0 <= j < k < |longer|
        ensures CsvFilename(longer[j].0) != CsvFilename(longer[k].0)
      {
        if k < i {
          assert longer[j] == prefix[j] && longer[k] == prefix[k];
        } else {
          assert longer[j] == sheets[j] && longer[k] == sheets[i];
        }
      }
    } else {
      var j :| 0 <= j < i && CsvFilename(sheets[j].0) == CsvFilename(sheets[i].0);
      assert longer[j] == sheets[j] && longer[i] == sheets[i];
    }
  }

  /** A sheet's entry is already written exactly when an earlier sheet has its file name. */
  lemma WrittenIffShared(sheets: seq<SheetData>, i: nat)
    requires i < |sheets|
    ensures SheetPath(sheets[i]) in ExportedEntries(sheets[..i]) <==>
            exists j :: 0 <= j < i && CsvFilename(sheets[j].0) == CsvFilename(sheets[i].0)
  {
    var prefix := sheets[..i];
    var ps := SheetPaths(prefix);
    ExportedEntriesKeys(prefix);
    if SheetPath(sheets[i]) in ExportedEntries(prefix) {
      var j :| 0 <= j < i && ps[j] == SheetPath(sheets[i]);
      assert prefix[j] == sheets[j];
      SheetEntryInjective(CsvFilename(sheets[j].0), CsvFilename(sheets[i].0));
    } else {
      forall j | 0 <= j < i
        ensures CsvFilename(sheets[j].0) != CsvFilename(sheets[i].0)
      {
        assert prefix[j] == sheets[j];
        assert SheetPath(prefix[j]) in ExportedEntries(prefix);
      }
    }
  }

  /** One more sheet keeps the file names distinct exactly when its entry is not yet written. */
  lemma DistinctStep(sheets: seq<SheetData>, i: nat)
    requires i < |sheets| && DistinctFilenames(sheets[..i])
    ensures DistinctFilenames(sheets[..i + 1]) <==> SheetPath(sheets[i]) !in ExportedEntries(sheets[..i])
  {
    DistinctExtend(sheets, i);
    WrittenIffShared(sheets, i);
  }

  /**
   * One step of the export loop: a sheet whose entry is already written shows that the file
   * names are not distinct; otherwise they stay distinct one sheet further, and that sheet's
   * metadata and CSV entry are the next ones written.
   */
  lemma ExportStep(sheets: seq<SheetData>, i: nat)
    requires i < |sheets| && DistinctFilenames(sheets[..i])
    ensures SheetPath(sheets[i]) in ExportedEntries(sheets[..i]) ==> !DistinctFilenames(sheets)
    ensures SheetPath(sheets[i]) !in ExportedEntries(sheets[..i]) ==> DistinctFilenames(sheets[..i + 1])
    ensures ExportedMetadata(sheets[..i + 1]) == ExportedMetadata(sheets[..i]) + [SheetMeta(sheets[i])]
    ensures ExportedEntries(sheets[..i + 1]) == ExportedEntries(sheets[..i])[SheetPath(sheets[i]) := SheetText(sheets[i])]
  {
    DistinctStep(sheets, i);
    DistinctPrefix(sheets, i + 1);
    MetadataStep(sheets, i);
    EntriesStep(sheets, i);
  }

  /**
   * The sheet part of exportSpreadsheetToZip: for each sheet in list order, its CSV file name,
   * its metadata entry, and its CSV under "sheets/". A second entry of one name makes the ZIP
   * stream fail.
   */
  method ExportSpreadsheetToZip(name: string, description: string, sheets: seq<SheetData>, media: seq<MediaMetadata>)
    returns (r: Result<Zip, Error>)
    ensures r.Ok? <==> DistinctFilenames(sheets)
    ensures r.Err? ==> r.error == DuplicateEntry
    ensures r.Ok? ==> r.value == Zip(Some(Metadata(name, description, ExportedMetadata(sheets), media)), ExportedEntries(sheets))
  {
    var metas: seq<SheetMetadata> := [];
    var entries: map<string, string> := map[];
    var i := 0;
    while i < |sheets|
      invariant 0 <= i <= |sheets|
      invariant DistinctFilenames(sheets[..i])
      invariant metas == ExportedMetadata(sheets[..i])
      invariant entries == ExportedEntries(sheets[..i])
    {
      ExportStep(sheets, i);
      var sheetName := sheets[i].0;
      var csvFilename := CsvFilename(sheetName);
      metas := metas + [SheetMetadata(sheetName, csvFilename)];
      var entry := SheetEntry(csvFilename);
      assert entry == SheetPath(sheets[i]);
      if entry in entries {
        return Err(DuplicateEntry);
      }
      var text := WriteSheetToCsv(sheets[i].1);
      assert text == SheetText(sheets[i]);
      entries := entries[entry := text];
      i := i + 1;
    }
    assert sheets[..i] == sheets;
    return Ok(Zip(Some(Metadata(name, description, metas, media)), entries));
  }

  // ---------------------------------------------------------------- importing

  /** A sheet created by the import: its name, its orderIndex and its cells. */
  datatype ImportedSheet = ImportedSheet(name: string, orderIndex: nat, cells: Grid)

  /** A media record created by the import: the newly generated file name, the type and the size. */
  datatype ImportedMedia = ImportedMedia(filename: string, contentType: string, size: int)

  /** The spreadsheet the import creates, owned by the importing user. */
  datatype Imported = Imported(name: string, description: string, owner: string, sheets: seq<ImportedSheet>, media: seq<ImportedMedia>)

  /** The sheets of the metadata whose CSV is in the archive, in metadata order. */
  function PresentSheets(ms: seq<SheetMetadata>, entries: map<string, string>): (r: seq<SheetMetadata>)
    ensures |r| <= |ms|
    ensures forall i :: 0 <= i < |r| ==> SheetEntry(r[i].filename) in entries
    decreases |ms|
  {
    if ms == [] then []
    else
      var init := PresentSheets(ms[..|ms| - 1], entries);
      var m := ms[|ms| - 1];
      if SheetEntry(m.filename) in entries then init + [m] else init
  }

  /** The cells read from the CSV at `path`. */
  function CsvCells(entries: map<string, string>, path: string): Grid
    requires path in entries
  {
    CellsOf(Csv.Parse(entries[path]))
  }

  /**
   * The sheets the import loop creates: one per sheet of the metadata whose CSV exists, in
   * metadata order, the order counter advancing only when a sheet is created.
   */
  function ImportSheets(ms: seq<SheetMetadata>, entries: map<string, string>): (r: seq<ImportedSheet>)
    decreases |ms|
  {
    if ms == [] then []
    else
      var init := ImportSheets(ms[..|ms| - 1], entries);
      var m := ms[|ms| - 1];
      var path := SheetEntry(m.filename);
      if path in entries then init + [ImportedSheet(m.name, |init|, CsvCells(entries, path))] else init
  }

  /**
   * The imported sheets are the sheets whose CSV exists, in metadata order, numbered 0, 1, 2, …
   * with no gap, each with the cells of its own CSV.
   */
  lemma {:induction false} ImportSheetsArePresent(ms: seq<SheetMetadata>, entries: map<string, string>)
    ensures var r, p := ImportSheets(ms, entries), PresentSheets(ms, entries);
            |r| == |p| &&
            forall i :: 0 <= i < |r| ==>
              r[i] == ImportedSheet(p[i].name, i, CsvCells(entries, SheetEntry(p[i].filename)))
    decreases |ms|
  {
    if ms != [] {
      ImportSheetsArePresent(ms[..|ms| - 1], entries);
    }
  }

  /** A sheet of the metadata whose CSV is missing is skipped: with no CSV at all there is no sheet. */
  lemma {:induction false} MissingCsvsAreSkipped(ms: seq<SheetMetadata>, entries: map<string, string>)
    requires forall i :: 0 <= i < |ms| ==> SheetEntry(ms[i].filename) !in entries
    ensures ImportSheets(ms, entries) == []
    decreases |ms|
  {
    if ms != [] {
      MissingCsvsAreSkipped(ms[..|ms| - 1], entries);
    }
  }

  /** When every CSV exists, every sheet of the metadata is imported. */
  lemma {:induction false} AllPresent(ms: seq<SheetMetadata>, entries: map<string, string>)
    requires forall i :: 0 <= i < |ms| ==> SheetEntry(ms[i].filename) in entries
    ensures PresentSheets(ms, entries) == ms
    decreases |ms|
  {
    if ms != [] {
      AllPresent(ms[..|ms| - 1], entries);
    }
  }

  /** Without a "sheets/" directory there is no CSV to find, so the directory test changes nothing. */
  lemma NoSheetsDirectory(ms: seq<SheetMetadata>, entries: map<string, string>)
    requires !DirExists(entries, "sheets/")
    ensures ImportSheets(ms, entries) == []
  {
    forall i | 0 <= i < |ms|
      ensures SheetEntry(ms[i].filename) !in entries
    {
      var p := SheetEntry(ms[i].filename);
      assert |"sheets/"| <= |p| && p[..|"sheets/"|] == "sheets/";
    }
    MissingCsvsAreSkipped(ms, entries);
  }

  /** The sheet loop of importSpreadsheetFromZip, with its `order` counter. */
  method ImportSheetsFromZip(ms: seq<SheetMetadata>, entries: map<string, string>) returns (sheets: seq<ImportedSheet>)
    ensures sheets == ImportSheets(ms, entries)
  {
    sheets := [];
    if exists p :: p in entries && |"sheets/"| <= |p| && p[..|"sheets/"|] == "sheets/" {
      var order := 0;
      var i := 0;
      while i < |ms|
        invariant 0 <= i <= |ms|
        invariant sheets == ImportSheets(ms[..i], entries)
        invariant order == |sheets|
      {
        var m := ms[i];
        var path := "sheets/" + m.filename;
        Csv.PrefixSnoc(ms, i);
        assert ms[..i + 1][..i] == ms[..i];
        if path in entries {
          var cells := ImportCellsFromCsv(Csv.Parse(entries[path]));
          sheets := sheets + [ImportedSheet(m.name, order, cells)];
          order := order + 1;
        }
        i := i + 1;
      }
      assert ms[..i] == ms;
    } else {
      NoSheetsDirectory(ms, entries);
    }
  }

  /** The extension the import keeps: the suffix from the last '.', only when that '.' is not the first character. */
  function ImportExtension(filename: string): string
  {
    match MediaGuards.LastIndexOf(filename, '.')
    case Some(dot) => if dot > 0 then filename[dot..] else ""
    case None => ""
  }

  /**
   * The import's extension is empty when the name has no '.' or only a leading one, and is
   * otherwise a proper suffix that starts at the last '.'.
   */
  lemma ImportExtensionShape(filename: string)
    ensures var ext := ImportExtension(filename);
            (ext == "" <==> '.' !in filename || MediaGuards.LastIndexOf(filename, '.') == Some(0)) &&
            (ext == "" || (ext[0] == '.' && '.' !in ext[1..] && |ext| < |filename| &&
                           filename == filename[..|filename| - |ext|] + ext))
  {
    var last := MediaGuards.LastIndexOf(filename, '.');
    if last.Some? && last.value > 0 {
      assert filename == filename[..last.value] + filename[last.value..];
    }
  }

  /** The import's rule and uploadMedia's rule differ only for a name whose only '.' is its first character. */
  lemma ImportExtensionVersusUpload(filename: string)
    ensures ImportExtension(filename) ==
            if MediaGuards.LastIndexOf(filename, '.') == Some(0) then "" else MediaGuards.UploadExtension(Some(filename))
  {
  }

  /** ".bashrc" keeps the whole name as its extension on upload but gets none on import. */
  lemma DotfileLosesExtensionOnImport()
    ensures ImportExtension(".bashrc") == ""
    ensures MediaGuards.UploadExtension(Some(".bashrc")) == ".bashrc"
  {
    MediaGuards.DotfileKeepsWholeName();
    var name := ".bashrc";
    assert MediaGuards.LastIndexOf(name, '.') == Some(0) by {
      assert name[0] == '.' && '.' !in name[1..];
    }
  }

  /** The media files of the metadata found under "media/", in metadata order. */
  function PresentMedia(ms: seq<MediaMetadata>, entries: map<string, string>): (r: seq<MediaMetadata>)
    ensures |r| <= |ms|
    ensures forall i :: 0 <= i < |r| ==> MediaEntry(r[i].filename) in entries
    decreases |ms|
  {
    if ms == [] then []
    else
      var init := PresentMedia(ms[..|ms| - 1], entries);
      var m := ms[|ms| - 1];
      if MediaEntry(m.filename) in entries then init + [m] else init
  }

  /** The media record made from the k-th media file found: the k-th UUID names it. */
  function MediaRecord(uuid: nat -> string, k: nat, m: MediaMetadata): ImportedMedia
  {
    ImportedMedia(uuid(k) + ImportExtension(m.filename), m.contentType, m.size)
  }

  /**
   * The media records the import loop creates: one per media file of the metadata found under
   * "media/", in metadata order, each named with the next generated UUID.
   */
  function ImportMedia(ms: seq<MediaMetadata>, entries: map<string, string>, uuid: nat -> string): (r: seq<ImportedMedia>)
    decreases |ms|
  {
    if ms == [] then []
    else
      var init := ImportMedia(ms[..|ms| - 1], entries, uuid);
      var m := ms[|ms| - 1];
      if MediaEntry(m.filename) in entries then init + [MediaRecord(uuid, |init|, m)] else init
  }

  /**
   * The k-th media record comes from the k-th media file found: it is named by the k-th
   * generated UUID followed by the import's extension of that file, and keeps its type and size.
   */
  lemma {:induction false} ImportMediaArePresent(ms: seq<MediaMetadata>, entries: map<string, string>, uuid: nat -> string)
    ensures MatchesPresent(ImportMedia(ms, entries, uuid), PresentMedia(ms, entries), uuid)
    decreases |ms|
  {
    if ms != [] {
      var init, m := ms[..|ms| - 1], ms[|ms| - 1];
      ImportMediaArePresent(init, entries, uuid);
      if MediaEntry(m.filename) in entries {
        MatchesPresentSnoc(ImportMedia(init, entries, uuid), PresentMedia(init, entries), uuid, m);
      }
    }
  }

  /** Record k is made from file k, named by the k-th UUID. */
  predicate MatchesPresent(r: seq<ImportedMedia>, p: seq<MediaMetadata>, uuid: nat -> string)
  {
    |r| == |p| && forall k :: 0 <= k < |r| ==> r[k] == MediaRecord(uuid, k, p[k])
  }

  /** One more file found adds the record named by the next UUID. */
  lemma MatchesPresentSnoc(r: seq<ImportedMedia>, p: seq<MediaMetadata>, uuid: nat -> string, m: MediaMetadata)
    requires MatchesPresent(r, p, uuid)
    ensures MatchesPresent(r + [MediaRecord(uuid, |r|, m)], p + [m], uuid)
  {
    var r', p' := r + [MediaRecord(uuid, |r|, m)], p + [m];
    forall k | 0 <= k < |r'|
      ensures r'[k] == MediaRecord(uuid, k, p'[k])
    {
      if k < |r| {
        assert r'[k] == r[k] && p'[k] == p[k];
      }
    }
  }

  /** The media loop of importSpreadsheetFromZip: a file found under "media/" becomes a media record. */
  method ImportMediaFromZip(ms: seq<MediaMetadata>, entries: map<string, string>, uuid: nat -> string)
    returns (media: seq<ImportedMedia>)
    ensures media == ImportMedia(ms, entries, uuid)
  {
    media := [];
    if exists p :: p in entries && |"media/"| <= |p| && p[..|"media/"|] == "media/" {
      var i := 0;
      while i < |ms|
        invariant 0 <= i <= |ms|
        invariant media == ImportMedia(ms[..i], entries, uuid)
      {
        var m := ms[i];
        assert ms[..i + 1][..i] == ms[..i];
        if "media/" + m.filename in entries {
          var extension := "";
          var lastDot := MediaGuards.LastIndexOf(m.filename, '.');
          if lastDot.Some? && lastDot.value > 0 {
            extension := m.filename[lastDot.value..];
          }
          var newFilename := uuid(|media|) + extension;
          media := media + [ImportedMedia(newFilename, m.contentType, m.size)];
        }
        i := i + 1;
      }
      assert ms[..i] == ms;
    } else {
      NoMediaDirectory(ms, entries, uuid);
    }
  }

  /** Without a "media/" directory no media record is created. */
  lemma {:induction false} NoMediaDirectory(ms: seq<MediaMetadata>, entries: map<string, string>, uuid: nat -> string)
    requires !DirExists(entries, "media/")
    ensures ImportMedia(ms, entries, uuid) == []
    decreases |ms|
  {
    if ms != [] {
      NoMediaDirectory(ms[..|ms| - 1], entries, uuid);
      var p := MediaEntry(ms[|ms| - 1].filename);
      assert |"media/"| <= |p| && p[..|"media/"|] == "media/";
    }
  }

  /**
   * importSpreadsheetFromZip: without metadata.json the import fails before anything is created,
   * then an unknown user fails it, and otherwise the spreadsheet gets the metadata's name and
   * description, the importing user as owner, and the sheets and media found in the archive.
   */
  method ImportSpreadsheetFromZip(zip: Zip, userName: string, users: set<string>, uuid: nat -> string)
    returns (r: Result<Imported, Error>)
    ensures zip.metadata.None? ==> r == Err(FormatError)
    ensures zip.metadata.Some? && userName !in users ==> r == Err(NotFound)
    ensures zip.metadata.Some? && userName in users ==>
              r == Ok(Imported(zip.metadata.value.name, zip.metadata.value.description, userName,
                               ImportSheets(zip.metadata.value.sheets, zip.entries),
                               ImportMedia(zip.metadata.value.mediaFiles, zip.entries, uuid)))
  {
    if zip.metadata.None? {
      return Err(FormatError);
    }
    var metadata := zip.metadata.value;
    if userName !in users {
      return Err(NotFound);
    }
    var sheets := ImportSheetsFromZip(metadata.sheets, zip.entries);
    var media := ImportMediaFromZip(metadata.mediaFiles, zip.entries, uuid);
    return Ok(Imported(metadata.name, metadata.description, userName, sheets, media));
  }

  /**
   * Export then import: when no two sheet names share a file name and every value is one the
   * reader gets back, the imported sheets are the exported ones, by name, in list order, with
   * orderIndex 0, 1, 2, … and the same cells.
   */
  lemma ExportImportRoundTrip(sheets: seq<SheetData>)
    requires DistinctFilenames(sheets)
    requires forall i :: 0 <= i < |sheets| ==> Sparse(sheets[i].1)
    requires forall i, a :: 0 <= i < |sheets| && a in sheets[i].1 ==> Csv.Recoverable(sheets[i].1[a])
    ensures var r := ImportSheets(ExportedMetadata(sheets), ExportedEntries(sheets));
            |r| == |sheets| &&
            forall i :: 0 <= i < |sheets| ==> r[i] == ImportedSheet(sheets[i].0, i, sheets[i].1)
  {
    var ms, entries := ExportedMetadata(sheets), ExportedEntries(sheets);
    ExportedEntriesValues(sheets);
    AllPresent(ms, entries);
    ImportSheetsArePresent(ms, entries);
    forall i | 0 <= i < |sheets|
      ensures CsvCells(entries, SheetEntry(ms[i].filename)) == sheets[i].1
    {
      SheetRoundTrip(sheets[i].1);
    }
  }
}
