/**
 * The CSV grid format of src/utils/imageDownloader.ts: `exportCsvData` writes one line per row,
 * one field per cell (its colour, or `TRANSPARENT` outside the pattern); `importCsvData` reads
 * such a text back into a grid and its dimensions, refusing ragged rows and malformed colours.
 */
module Csv {
  import opened Outcome
  import opened Text
  import opened HexColor
  import opened Cells

  /** The field written for a cell outside the pattern. */
  const TransparentMark: string := "TRANSPARENT"

  /** The cell an imported `TRANSPARENT` mark or empty field becomes. */
  const ImportedTransparent: Cell := Cell("TRANSPARENT", "#FFFFFF", true)

  datatype CsvError =
    | NoData                                               // export without a grid or dimensions
    | EmptyFile                                            // import of an empty text
    | ColumnMismatch(row: nat, expected: nat, actual: nat) // 1-based row, N, the row's field count
    | InvalidColor(row: nat, col: nat, value: string)      // 1-based row and column, trimmed field

  datatype Imported = Imported(grid: Grid, dims: Dims)

  // ---------------------------------------------------------------- export

  /** The field of column `col` of a row: the colour of an inner cell, the mark otherwise
    * (also for a column the row does not have, where the source reads `undefined`). */
  function ExportField(row: seq<Cell>, col: nat): string {
    if col < |row| && !row[col].isExternal then row[col].color else TransparentMark
  }

  function RowFields(row: seq<Cell>, n: nat): (f: seq<string>)
    ensures |f| == n && forall c :: 0 <= c < n ==> f[c] == ExportField(row, c)
  {
    seq(n, c requires 0 <= c < n => ExportField(row, c))
  }

  function ExportLines(g: Grid, d: Dims): (lines: seq<string>)
    requires d.m <= |g|
    ensures |lines| == d.m && forall r :: 0 <= r < d.m ==> lines[r] == Join(RowFields(g[r], d.n), ',')
  {
    seq(d.m, r requires 0 <= r < d.m => Join(RowFields(g[r], d.n), ','))
  }

  /** The CSV text of the first `M` rows and `N` columns. */
  function ExportText(g: Grid, d: Dims): string
    requires d.m <= |g|
  {
    Join(ExportLines(g, d), '\n')
  }

  /** `exportCsvData` without the download: the text it puts in the file, or the refusal. */
  method ExportCsv(grid: Option<Grid>, dims: Option<Dims>) returns (r: Result<string, CsvError>)
    requires grid.Some? && dims.Some? ==> dims.value.m <= |grid.value|
    ensures grid.None? || dims.None? ==> r == Failure(NoData)
    ensures grid.Some? && dims.Some? ==> r == Success(ExportText(grid.value, dims.value))
  {
    if grid.None? || dims.None? {
      return Failure(NoData);
    }
    var g, d := grid.value, dims.value;
    var csvLines: seq<string> := [];
    for row := 0 to d.m
      invariant |csvLines| == row
      invariant forall r :: 0 <= r < row ==> csvLines[r] == Join(RowFields(g[r], d.n), ',')
    {
      var rowData: seq<string> := [];
      for col := 0 to d.n
        invariant |rowData| == col
        invariant forall c :: 0 <= c < col ==> rowData[c] == ExportField(g[row], c)
      {
        if col < |g[row]| && !g[row][col].isExternal {
          rowData := rowData + [g[row][col].color];
        } else {
          rowData := rowData + [TransparentMark];
        }
      }
      assert rowData == RowFields(g[row], d.n);
      csvLines := csvLines + [Join(rowData, ',')];
    }
    assert csvLines == ExportLines(g, d);
    return Success(Join(csvLines, '\n'));
  }

  // ---------------------------------------------------------------- import

  /** The cell of one trimmed field, or None for a malformed colour. */
  function ImportField(v: string): Option<Cell> {
    if v == TransparentMark || v == "" then Some(ImportedTransparent)
    else if IsHexColor6(v) then Some(Cell(Upper(v), Upper(v), false))
    else None
  }

  /** The cells of the first `k` fields of line `row` (0-based), stopping at the first bad field. */
  function ParseFields(fields: seq<string>, row: nat, k: nat): Result<seq<Cell>, CsvError>
    requires k <= |fields|
  {
    if k == 0 then Success([])
    else
      match ParseFields(fields, row, k - 1)
      case Failure(e) => Failure(e)
      case Success(cells) =>
        var v := Trim(fields[k - 1]);
        match ImportField(v)
        case None => Failure(InvalidColor(row + 1, k, v))
        case Some(c) => Success(cells + [c])
  }

  /** The rows of the first `k` lines, stopping at the first ragged line or bad field. */
  function ParseLines(lines: seq<string>, n: nat, k: nat): Result<Grid, CsvError>
    requires k <= |lines|
  {
    if k == 0 then Success([])
    else
      match ParseLines(lines, n, k - 1)
      case Failure(e) => Failure(e)
      case Success(g) =>
        var fields := Split(lines[k - 1], ',');
        if |fields| != n then Failure(ColumnMismatch(k, n, |fields|))
        else
          match ParseFields(fields, k - 1, |fields|)
          case Failure(e) => Failure(e)
          case Success(cells) => Success(g + [cells])
  }

  /** The lines of a CSV text: the trimmed text split at line feeds. */
  function CsvLines(text: string): (lines: seq<string>)
    ensures |lines| >= 1
  {
    Split(Trim(text), '\n')
  }

  /** What `importCsvData` resolves with or rejects with, for the text of a file. */
  function ImportText(text: string): Result<Imported, CsvError> {
    if text == "" then Failure(EmptyFile)
    else
      var lines := CsvLines(text);
      var n := |Split(lines[0], ',')|;
      match ParseLines(lines, n, |lines|)
      case Failure(e) => Failure(e)
      case Success(g) => Success(Imported(g, Dims(n, |lines|)))
  }

  lemma {:induction false} ParseFieldsFailureStays(fields: seq<string>, row: nat, k: nat, k': nat)
    requires k <= k' <= |fields| && ParseFields(fields, row, k).Failure?
    ensures ParseFields(fields, row, k') == ParseFields(fields, row, k)
    decreases k' - k
  {
    if k < k' {
      ParseFieldsFailureStays(fields, row, k, k' - 1);
    }
  }

  lemma {:induction false} ParseLinesFailureStays(lines: seq<string>, n: nat, k: nat, k': nat)
    requires k <= k' <= |lines| && ParseLines(lines, n, k).Failure?
    ensures ParseLines(lines, n, k') == ParseLines(lines, n, k)
    decreases k' - k
  {
    if k < k' {
      ParseLinesFailureStays(lines, n, k, k' - 1);
    }
  }

  /** The inner loop of `importCsvData` over the `N` fields of line `row`. */
  method ImportRow(fields: seq<string>, row: nat) returns (r: Result<seq<Cell>, CsvError>)
    ensures r == ParseFields(fields, row, |fields|)
  {
    var cells: seq<Cell> := [];
    for col := 0 to |fields|
      invariant ParseFields(fields, row, col) == Success(cells)
    {
      var v := Trim(fields[col]);
      if v == TransparentMark || v == "" {
        cells := cells + [ImportedTransparent];
      } else if !IsHexColor6(v) {
        ParseFieldsFailureStays(fields, row, col + 1, |fields|);
        return Failure(InvalidColor(row + 1, col + 1, v));
      } else {
        cells := cells + [Cell(Upper(v), Upper(v), false)];
      }
    }
    return Success(cells);
  }

  /** `importCsvData` once the file has been read as `text`. */
  method ImportCsv(text: string) returns (r: Result<Imported, CsvError>)
    ensures r == ImportText(text)
  {
    if text == "" {
      return Failure(EmptyFile);
    }
    var lines := CsvLines(text);
    var m := |lines|;
    var n := |Split(lines[0], ',')|;
    var grid: Grid := [];
    for row := 0 to m
      invariant ParseLines(lines, n, row) == Success(grid)
    {
      var fields := Split(lines[row], ',');
      if |fields| != n {
        ParseLinesFailureStays(lines, n, row + 1, m);
        return Failure(ColumnMismatch(row + 1, n, |fields|));
      }
      var cells := ImportRow(fields, row);
      if cells.Failure? {
        ParseLinesFailureStays(lines, n, row + 1, m);
        return Failure(cells.error);
      }
      grid := grid + [cells.value];
    }
    return Success(Imported(grid, Dims(n, m)));
  }

  // ---------------------------------------------------------------- properties

  /** A cell as the importer produces it: the transparent cell, or an inner cell keyed by its
    * upper-case six-digit colour. */
  predicate ImportShaped(c: Cell) {
    c == ImportedTransparent || (!c.isExternal && IsHexColor6(c.color) && c.key == c.color && Upper(c.color) == c.color)
  }

  lemma {:induction false} ParseFieldsShape(fields: seq<string>, row: nat, k: nat)
    requires k <= |fields|
    ensures ParseFields(fields, row, k).Success? ==>
      var cells := ParseFields(fields, row, k).value;
      |cells| == k && forall c :: 0 <= c < k ==> ImportShaped(cells[c])
  {
    if k > 0 {
      ParseFieldsShape(fields, row, k - 1);
      var v := Trim(fields[k - 1]);
      if IsHexColor6(v) {
        UpperHexColor6(v);
      }
    }
  }

  lemma {:induction false} ParseLinesShape(lines: seq<string>, n: nat, k: nat)
    requires k <= |lines|
    ensures ParseLines(lines, n, k).Success? ==>
      var g := ParseLines(lines, n, k).value;
      Rectangular(g, k, n) && forall r, c :: 0 <= r < k && 0 <= c < n ==> ImportShaped(g[r][c])
  {
    if k > 0 {
      ParseLinesShape(lines, n, k - 1);
      var fields := Split(lines[k - 1], ',');
      if |fields| == n {
        ParseFieldsShape(fields, k - 1, n);
      }
    }
  }

  /** An import that succeeds yields at least one row and one column, every row `N` cells long,
    * every cell in imported form. */
  lemma ImportShape(text: string)
    requires ImportText(text).Success?
    ensures var im := ImportText(text).value;
      im.dims.m >= 1 && im.dims.n >= 1 && Rectangular(im.grid, im.dims.m, im.dims.n)
      && forall r, c :: 0 <= r < im.dims.m && 0 <= c < im.dims.n ==> ImportShaped(im.grid[r][c])
  {
    var lines := CsvLines(text);
    ParseLinesShape(lines, |Split(lines[0], ',')|, |lines|);
  }

  /** The first `k` fields each read as a cell. */
  predicate FieldsValid(fields: seq<string>, k: nat)
    requires k <= |fields|
  {
    forall c :: 0 <= c < k ==> ImportField(Trim(fields[c])).Some?
  }

  /** A line of `n` fields, each of which reads as a cell. */
  predicate LineValid(line: string, n: nat) {
    var fields := Split(line, ',');
    |fields| == n && FieldsValid(fields, n)
  }

  /** The first `k` lines each have `n` fields, each of which reads as a cell. */
  predicate LinesValid(lines: seq<string>, n: nat, k: nat)
    requires k <= |lines|
  {
    forall r :: 0 <= r < k ==> LineValid(lines[r], n)
  }

  /** The fields parse exactly when each of them reads as a cell. */
  lemma {:induction false} ParseFieldsSucceeds(fields: seq<string>, row: nat, k: nat)
    requires k <= |fields|
    ensures ParseFields(fields, row, k).Success? <==> FieldsValid(fields, k)
  {
    if k > 0 {
      ParseFieldsSucceeds(fields, row, k - 1);
    }
  }

  /** Fields that parse give the cell each of them reads as. */
  lemma {:induction false} ParseFieldsCells(fields: seq<string>, row: nat, k: nat)
    requires k <= |fields| && ParseFields(fields, row, k).Success?
    ensures var cells := ParseFields(fields, row, k).value;
      |cells| == k && forall c :: 0 <= c < k ==> Some(cells[c]) == ImportField(Trim(fields[c]))
  {
    if k > 0 {
      ParseFieldsCells(fields, row, k - 1);
      var cells, cells' := ParseFields(fields, row, k).value, ParseFields(fields, row, k - 1).value;
      assert cells == cells' + [ImportField(Trim(fields[k - 1])).value];
    }
  }

  /** One more line: the parse goes on exactly when that line has `n` fields that all parse. */
  lemma ParseLinesStep(lines: seq<string>, n: nat, k: nat)
    requires 0 < k <= |lines|
    ensures var fields := Split(lines[k - 1], ',');
      ParseLines(lines, n, k).Success? <==>
        ParseLines(lines, n, k - 1).Success? && |fields| == n && ParseFields(fields, k - 1, n).Success?
    ensures var fields := Split(lines[k - 1], ',');
      ParseLines(lines, n, k).Success? ==>
        ParseLines(lines, n, k).value == ParseLines(lines, n, k - 1).value + [ParseFields(fields, k - 1, n).value]
  {
  }

  /** One more line: a parse that failed stays failed, and otherwise that line's fault is reported. */
  lemma ParseLinesFailStep(lines: seq<string>, n: nat, k: nat)
    requires 0 < k <= |lines|
    ensures ParseLines(lines, n, k - 1).Failure? ==> ParseLines(lines, n, k) == ParseLines(lines, n, k - 1)
    ensures var fields := Split(lines[k - 1], ',');
      ParseLines(lines, n, k - 1).Success? && |fields| != n ==>
        ParseLines(lines, n, k) == Failure(ColumnMismatch(k, n, |fields|))
    ensures var fields := Split(lines[k - 1], ',');
      ParseLines(lines, n, k - 1).Success? && |fields| == n && ParseFields(fields, k - 1, n).Failure? ==>
        ParseLines(lines, n, k) == Failure(ParseFields(fields, k - 1, n).error)
  {
  }

  /** Lines that each have `n` fields that all read as cells parse. */
  lemma {:induction false} ParseLinesAccepts(lines: seq<string>, n: nat, k: nat)
    requires k <= |lines| && LinesValid(lines, n, k)
    ensures ParseLines(lines, n, k).Success?
  {
    if k > 0 {
      ParseLinesAccepts(lines, n, k - 1);
      assert LineValid(lines[k - 1], n);
      ParseFieldsSucceeds(Split(lines[k - 1], ','), k - 1, n);
    }
  }

  /** Lines that parse give one row per line, the parse of that line's `n` fields. */
  lemma {:induction false} ParseLinesRows(lines: seq<string>, n: nat, k: nat)
    requires k <= |lines| && ParseLines(lines, n, k).Success?
    ensures var g := ParseLines(lines, n, k).value;
      |g| == k && forall r :: 0 <= r < k ==>
        |Split(lines[r], ',')| == n && ParseFields(Split(lines[r], ','), r, n) == Success(g[r])
  {
    if k > 0 {
      ParseLinesStep(lines, n, k);
      ParseLinesRows(lines, n, k - 1);
      var g, g' := ParseLines(lines, n, k).value, ParseLines(lines, n, k - 1).value;
      assert forall r :: 0 <= r < k - 1 ==> g[r] == g'[r];
    }
  }

  /** Lines that parse each have `n` fields that all read as cells. */
  lemma ParseLinesValid(lines: seq<string>, n: nat, k: nat)
    requires k <= |lines| && ParseLines(lines, n, k).Success?
    ensures LinesValid(lines, n, k)
  {
    ParseLinesRows(lines, n, k);
    forall r | 0 <= r < k
      ensures LineValid(lines[r], n)
    {
      ParseFieldsSucceeds(Split(lines[r], ','), r, n);
    }
  }

  /** The lines parse exactly when each has `n` fields that all read as cells. */
  lemma ParseLinesSucceeds(lines: seq<string>, n: nat, k: nat)
    requires k <= |lines|
    ensures ParseLines(lines, n, k).Success? <==> LinesValid(lines, n, k)
  {
    if ParseLines(lines, n, k).Success? {
      ParseLinesValid(lines, n, k);
    }
    if LinesValid(lines, n, k) {
      ParseLinesAccepts(lines, n, k);
    }
  }

  /**
   * An import succeeds exactly when the file is not empty and every line has as many fields as the
   * first, each a mark, empty or a six-digit colour.
   */
  lemma ImportAccepts(text: string)
    ensures ImportText(text).Success? <==>
      text != "" && var lines := CsvLines(text); LinesValid(lines, |Split(lines[0], ',')|, |lines|)
  {
    if text != "" {
      var lines := CsvLines(text);
      ParseLinesSucceeds(lines, |Split(lines[0], ',')|, |lines|);
    }
  }

  /** A successful import has one row per line, as many columns as the first line has fields, and
    * the cell each field reads as. */
  lemma ImportCells(text: string)
    requires ImportText(text).Success?
    ensures var lines := CsvLines(text); var n := |Split(lines[0], ',')|; var im := ImportText(text).value;
      im.dims == Dims(n, |lines|) && |im.grid| == |lines| && LinesValid(lines, n, |lines|)
      && forall r, c :: 0 <= r < |lines| && 0 <= c < n ==>
        |im.grid[r]| == n && Some(im.grid[r][c]) == ImportField(Trim(Split(lines[r], ',')[c]))
  {
    var lines := CsvLines(text);
    var n := |Split(lines[0], ',')|;
    ParseLinesSucceeds(lines, n, |lines|);
    ParseLinesRows(lines, n, |lines|);
    var g := ImportText(text).value.grid;
    forall r | 0 <= r < |lines|
      ensures |g[r]| == n && forall c :: 0 <= c < n ==> Some(g[r][c]) == ImportField(Trim(Split(lines[r], ',')[c]))
    {
      ParseFieldsCells(Split(lines[r], ','), r, n);
    }
  }

  /** The error an import reports describes the text: a ragged line has another field count than
    * the first, and a rejected field is neither a mark, nor empty, nor a six-digit colour. */
  ghost predicate Explains(lines: seq<string>, n: nat, e: CsvError) {
    match e
    case ColumnMismatch(r, expected, actual) =>
      1 <= r <= |lines| && expected == n && actual == |Split(lines[r - 1], ',')| && actual != n
    case InvalidColor(r, c, v) =>
      1 <= r <= |lines| && |Split(lines[r - 1], ',')| == n && 1 <= c <= n
      && v == Trim(Split(lines[r - 1], ',')[c - 1])
      && v != TransparentMark && v != "" && !IsHexColor6(v)
    case _ => false
  }

  /** The 1-based line an error reports, or 0 for an error about the whole file. */
  function ErrorRow(e: CsvError): nat {
    match e
    case ColumnMismatch(r, _, _) => r
    case InvalidColor(r, _, _) => r
    case _ => 0
  }

  lemma {:induction false} ParseFieldsError(fields: seq<string>, row: nat, k: nat)
    requires k <= |fields|
    ensures ParseFields(fields, row, k).Failure? ==>
      var e := ParseFields(fields, row, k).error;
      e.InvalidColor? && e.row == row + 1 && 1 <= e.col <= k && e.value == Trim(fields[e.col - 1])
      && ImportField(e.value).None?
  {
    if k > 0 {
      ParseFieldsError(fields, row, k - 1);
    }
  }

  lemma {:induction false} ParseLinesError(lines: seq<string>, n: nat, k: nat)
    requires k <= |lines|
    ensures ParseLines(lines, n, k).Failure? ==> Explains(lines, n, ParseLines(lines, n, k).error)
  {
    if k > 0 {
      ParseLinesError(lines, n, k - 1);
      var fields := Split(lines[k - 1], ',');
      if |fields| == n {
        ParseFieldsError(fields, k - 1, n);
      }
    }
  }

  /** A parse that fails reports a line of the first `k`, and the lines before it parse. */
  lemma {:induction false} ParseLinesErrorRow(lines: seq<string>, n: nat, k: nat)
    requires k <= |lines|
    ensures ParseLines(lines, n, k).Failure? ==>
      var r := ErrorRow(ParseLines(lines, n, k).error);
      1 <= r <= k && ParseLines(lines, n, r - 1).Success?
  {
    if k > 0 {
      ParseLinesFailStep(lines, n, k);
      var fields := Split(lines[k - 1], ',');
      if ParseLines(lines, n, k - 1).Failure? {
        ParseLinesErrorRow(lines, n, k - 1);
      } else if |fields| == n {
        ParseFieldsError(fields, k - 1, n);
      }
    }
  }

  /**
   * Every rejection but the empty file points at a line or field that is really wrong, and at the
   * first such line: every line before it has as many fields as the first, all of them readable.
   */
  lemma ImportErrorExplained(text: string)
    requires ImportText(text).Failure?
    ensures var e := ImportText(text).error;
      e == EmptyFile <==> text == ""
    ensures text != "" ==>
      var lines := CsvLines(text); var n := |Split(lines[0], ',')|; var e := ImportText(text).error;
      Explains(lines, n, e) && 1 <= ErrorRow(e) <= |lines| && LinesValid(lines, n, ErrorRow(e) - 1)
  {
    if text != "" {
      var lines := CsvLines(text);
      var n := |Split(lines[0], ',')|;
      ParseLinesError(lines, n, |lines|);
      ParseLinesErrorRow(lines, n, |lines|);
      ParseLinesSucceeds(lines, n, ErrorRow(ImportText(text).error) - 1);
    }
  }

  /** What an exported cell is read back as. */
  function Normalized(c: Cell): Cell {
    if c.isExternal then ImportedTransparent else Cell(Upper(c.color), Upper(c.color), false)
  }

  /** A grid the export writes faithfully: `M` rows of `N` cells, at least one of each, and every
    * inner cell coloured with a six-digit colour. */
  predicate Exportable(g: Grid, d: Dims) {
    d.m >= 1 && d.n >= 1 && Rectangular(g, d.m, d.n)
    && forall r, c :: 0 <= r < d.m && 0 <= c < d.n && !g[r][c].isExternal ==> IsHexColor6(g[r][c].color)
  }

  /** An exported field is a mark or a colour: non-empty and free of both separators. */
  lemma ExportFieldClean(g: Grid, d: Dims, r: nat, c: nat)
    requires Exportable(g, d) && r < d.m && c < d.n
    ensures var f := ExportField(g[r], c);
      f != [] && ',' !in f && '\n' !in f
  {
    var f := ExportField(g[r], c);
    if !g[r][c].isExternal {
      assert ',' !in f by {
        forall i | 0 <= i < |f| ensures f[i] != ',' {
          if i > 0 { assert f[i] == f[1..][i - 1]; }
        }
      }
      assert '\n' !in f by {
        forall i | 0 <= i < |f| ensures f[i] != '\n' {
          if i > 0 { assert f[i] == f[1..][i - 1]; }
        }
      }
    }
  }

  /** An exported field neither starts nor ends with white space. */
  lemma ExportFieldEnds(g: Grid, d: Dims, r: nat, c: nat)
    requires Exportable(g, d) && r < d.m && c < d.n
    ensures var f := ExportField(g[r], c);
      f != [] && !IsJsSpace(f[0]) && !IsJsSpace(f[|f| - 1])
  {
    var f := ExportField(g[r], c);
    if !g[r][c].isExternal {
      assert f[|f| - 1] == f[1..][5];
    }
  }

  /** An exported field is its own trim and reads back as the normalized cell. */
  lemma ExportFieldReadBack(g: Grid, d: Dims, r: nat, c: nat)
    requires Exportable(g, d) && r < d.m && c < d.n
    ensures ImportField(Trim(ExportField(g[r], c))) == Some(Normalized(g[r][c]))
  {
    ExportFieldEnds(g, d, r, c);
    TrimUnpadded(ExportField(g[r], c));
  }

  /** An exported line splits back into its fields. */
  lemma ExportLineSplits(g: Grid, d: Dims, r: nat)
    requires Exportable(g, d) && r < d.m
    ensures var fields := RowFields(g[r], d.n);
      Split(Join(fields, ','), ',') == fields
  {
    var fields := RowFields(g[r], d.n);
    forall c | 0 <= c < d.n ensures ',' !in fields[c] {
      ExportFieldClean(g, d, r, c);
    }
    SplitJoin(fields, ',');
  }

  /** An exported line is non-empty, free of line feeds, and starts and ends with a character of
    * its first and last field. */
  lemma ExportLineEnds(g: Grid, d: Dims, r: nat)
    requires Exportable(g, d) && r < d.m
    ensures var fields := RowFields(g[r], d.n);
      var line := Join(fields, ',');
      line != [] && '\n' !in line
      && line[0] == fields[0][0] && line[|line| - 1] == fields[d.n - 1][|fields[d.n - 1]| - 1]
  {
    var fields := RowFields(g[r], d.n);
    forall c | 0 <= c < d.n ensures fields[c] != [] && '\n' !in fields[c] {
      ExportFieldClean(g, d, r, c);
    }
    JoinEnds(fields, ',');
    JoinAvoids(fields, ',', '\n');
  }

  /** Fields that each read back as a given cell parse to exactly those cells. */
  lemma ParseFieldsAll(fields: seq<string>, row: nat, cells: seq<Cell>, k: nat)
    requires |cells| == |fields| && k <= |fields|
    requires forall c {:trigger cells[c]} :: 0 <= c < k ==> ImportField(Trim(fields[c])) == Some(cells[c])
    ensures ParseFields(fields, row, k) == Success(cells[..k])
  {
    var j := 0;
    while j < k
      invariant j <= k && ParseFields(fields, row, j) == Success(cells[..j])
    {
      ParseFieldsSnoc(fields, row, j + 1, cells[..j], cells[j]);
      assert cells[..j + 1] == cells[..j] + [cells[j]];
      j := j + 1;
    }
  }

  lemma ParseFieldsSnoc(fields: seq<string>, row: nat, k: nat, cells: seq<Cell>, x: Cell)
    requires 0 < k <= |fields|
    requires ParseFields(fields, row, k - 1) == Success(cells)
    requires ImportField(Trim(fields[k - 1])) == Some(x)
    ensures ParseFields(fields, row, k) == Success(cells + [x])
  {
  }

  /** Lines that each parse to a given row of `N` cells parse to exactly those rows. */
  lemma {:induction false} ParseLinesAll(lines: seq<string>, n: nat, g: Grid, k: nat)
    requires |g| == |lines| && k <= |lines|
    requires forall r :: 0 <= r < k ==> |Split(lines[r], ',')| == n
    requires forall r :: 0 <= r < k ==> ParseFields(Split(lines[r], ','), r, n) == Success(g[r])
    ensures ParseLines(lines, n, k) == Success(g[..k])
  {
    if k > 0 {
      ParseLinesAll(lines, n, g, k - 1);
      var fields := Split(lines[k - 1], ',');
      assert |fields| == n;
      assert ParseFields(fields, k - 1, n) == Success(g[k - 1]);
      assert g[..k] == g[..k - 1] + [g[k - 1]];
    }
  }

  /** An exported line parses back to the normalized row. */
  lemma ParseExportedRow(g: Grid, d: Dims, h: Grid, r: nat)
    requires Exportable(g, d) && r < d.m
    requires Rectangular(h, d.m, d.n)
    requires forall c :: 0 <= c < d.n ==> h[r][c] == Normalized(g[r][c])
    ensures |Split(ExportLines(g, d)[r], ',')| == d.n
    ensures ParseFields(Split(ExportLines(g, d)[r], ','), r, d.n) == Success(h[r])
  {
    var fields := RowFields(g[r], d.n);
    ExportLineSplits(g, d, r);
    assert Split(ExportLines(g, d)[r], ',') == fields;
    forall c | 0 <= c < d.n ensures ImportField(Trim(fields[c])) == Some(h[r][c]) {
      ExportFieldReadBack(g, d, r, c);
    }
    ParseFieldsAll(fields, r, h[r], d.n);
    assert h[r][..d.n] == h[r];
  }

  /** Every cell of the first `M` rows and `N` columns in normalized form. */
  function NormalizedGrid(g: Grid, d: Dims): (h: Grid)
    requires Rectangular(g, d.m, d.n)
    ensures Rectangular(h, d.m, d.n) && forall r, c :: 0 <= r < d.m && 0 <= c < d.n ==> h[r][c] == Normalized(g[r][c])
  {
    seq(d.m, r requires 0 <= r < d.m => seq(d.n, c requires 0 <= c < d.n => Normalized(g[r][c])))
  }

  /** Every exported line is non-empty and has no line break. */
  lemma ExportLinesClean(g: Grid, d: Dims)
    requires Exportable(g, d)
    ensures var lines := ExportLines(g, d);
      forall r :: 0 <= r < |lines| ==> lines[r] != [] && '\n' !in lines[r]
  {
    forall r | 0 <= r < d.m ensures ExportLines(g, d)[r] != [] && '\n' !in ExportLines(g, d)[r] {
      ExportLineEnds(g, d, r);
    }
  }

  /** An exported text is non-empty and neither starts nor ends with white space. */
  lemma ExportTextEnds(g: Grid, d: Dims)
    requires Exportable(g, d)
    ensures var text := ExportText(g, d);
      text != [] && !IsJsSpace(text[0]) && !IsJsSpace(text[|text| - 1])
  {
    var lines := ExportLines(g, d);
    ExportLinesClean(g, d);
    FirstUnpadded(g, d);
    LastUnpadded(g, d);
    assert |lines| >= 1;
    assert forall i :: 0 <= i < |lines| ==> lines[i] != [];
    assert !IsJsSpace(lines[0][0]);
    assert !IsJsSpace(lines[|lines| - 1][|lines[|lines| - 1]| - 1]);
    JoinUnpadded(lines, '\n');
  }

  /** An exported text is non-empty, its own trim, and splits back into its lines. */
  lemma ExportTextFacts(g: Grid, d: Dims)
    requires Exportable(g, d)
    ensures ExportText(g, d) != "" && CsvLines(ExportText(g, d)) == ExportLines(g, d)
  {
    var lines := ExportLines(g, d);
    var text := ExportText(g, d);
    ExportTextEnds(g, d);
    TrimUnpadded(text);
    ExportLinesClean(g, d);
    SplitJoin(lines, '\n');
  }

  /** The first character of an export is not white space. */
  lemma FirstUnpadded(g: Grid, d: Dims)
    requires Exportable(g, d)
    ensures var lines := ExportLines(g, d);
      lines[0] != [] && !IsJsSpace(lines[0][0])
  {
    var fields := RowFields(g[0], d.n);
    ExportLineEnds(g, d, 0);
    ExportFieldEnds(g, d, 0, 0);
    assert fields[0] == ExportField(g[0], 0);
  }

  /** The last character of an export is not white space. */
  lemma LastUnpadded(g: Grid, d: Dims)
    requires Exportable(g, d)
    ensures var lines := ExportLines(g, d);
      lines[d.m - 1] != [] && !IsJsSpace(lines[d.m - 1][|lines[d.m - 1]| - 1])
  {
    var r := d.m - 1;
    var fields := RowFields(g[r], d.n);
    ExportLineEnds(g, d, r);
    ExportFieldEnds(g, d, r, d.n - 1);
    var f := fields[d.n - 1];
    assert f == ExportField(g[r], d.n - 1);
    var line := ExportLines(g, d)[r];
    assert line == Join(fields, ',');
    assert line[|line| - 1] == f[|f| - 1];
  }

  /** Importing an exported grid gives back its dimensions and every cell in normalized form. */
  lemma ImportExportRoundTrip(g: Grid, d: Dims)
    requires Exportable(g, d)
    ensures ImportText(ExportText(g, d)) == Success(Imported(NormalizedGrid(g, d), d))
  {
    var lines := ExportLines(g, d);
    ExportTextFacts(g, d);
    var h := NormalizedGrid(g, d);
    forall r | 0 <= r < d.m
      ensures |Split(lines[r], ',')| == d.n && ParseFields(Split(lines[r], ','), r, d.n) == Success(h[r])
    {
      ParseExportedRow(g, d, h, r);
    }
    ParseLinesAll(lines, d.n, h, d.m);
    assert h[..d.m] == h;
    var text := ExportText(g, d);
    assert CsvLines(text) == lines && |lines| == d.m;
    assert |Split(lines[0], ',')| == d.n;
    assert ParseLines(lines, d.n, d.m) == Success(h);
  }

  /** A grid already in imported form survives an export and an import unchanged. */
  lemma ImportExportIdentity(g: Grid, d: Dims)
    requires Exportable(g, d)
    requires forall r, c :: 0 <= r < d.m && 0 <= c < d.n ==> ImportShaped(g[r][c])
    ensures ImportText(ExportText(g, d)) == Success(Imported(g, d))
  {
    ImportExportRoundTrip(g, d);
    var h := NormalizedGrid(g, d);
    forall r | 0 <= r < d.m ensures h[r] == g[r] {
      forall c | 0 <= c < d.n ensures h[r][c] == g[r][c] {
        NormalizedShaped(g[r][c]);
      }
    }
    assert h == g;
  }

  lemma NormalizedShaped(c: Cell)
    requires ImportShaped(c)
    ensures Normalized(c) == c
  {
  }
}
