/**
 * The Mapping Loader: from the rows of a spreadsheet to an ordered
 * `filename -> password` dictionary. The first row is classified as a header
 * or as data, then every data row either contributes a trimmed, non-empty
 * (filename, password) pair or is silently dropped.
 */
module MappingLoader {
  import opened Wrappers
  import opened Text
  import opened OrderedDict

  /**
   * A cell value as the spreadsheet reader hands it over: text, an integer,
   * or any other value (float, boolean, date, ...) carried with its Python
   * `str()` rendering. A blank cell is `None` in `Option<Cell>`.
   */
  datatype Cell = Str(text: string) | Num(n: int) | Other(shown: string)

  /** A row of the sheet; `None` stands for a row the reader gives as `None`. */
  type Row = Option<seq<Option<Cell>>>

  function Digit(d: nat): (c: char)
    requires d < 10
    ensures '0' <= c <= '9'
  {
    ('0' as int + d) as char
  }

  /** The value of a decimal digit. */
  function DigitValue(c: char): int {
    c as int - '0' as int
  }

  /** The number a string of decimal digits denotes, most significant digit first. */
  function DecimalValue(s: string): int {
    if s == [] then 0 else DecimalValue(s[..|s| - 1]) * 10 + DigitValue(s[|s| - 1])
  }

  /** The number `str()` output denotes: a leading `-` negates the digits after it. */
  function SignedValue(s: string): int {
    if s != [] && s[0] == '-' then -DecimalValue(s[1..]) else DecimalValue(s)
  }

  /** Python's `str()` of a non-negative integer: digits only, and no leading zero except for 0 itself. */
  function NatToDecimal(n: nat): (r: string)
    ensures r != []
    ensures forall i :: 0 <= i < |r| ==> '0' <= r[i] <= '9'
    ensures r[0] == '0' <==> n == 0
    ensures |r| > 1 <==> n >= 10
  {
    if n < 10 then [Digit(n)] else NatToDecimal(n / 10) + [Digit(n % 10)]
  }

  /** The digits `str()` writes for `n` denote `n`. */
  lemma {:induction false} NatToDecimalValue(n: nat)
    ensures DecimalValue(NatToDecimal(n)) == n
  {
    var r := NatToDecimal(n);
    if n >= 10 {
      NatToDecimalValue(n / 10);
      assert r[..|r| - 1] == NatToDecimal(n / 10);
      assert DigitValue(r[|r| - 1]) == n % 10;
    } else {
      assert DecimalValue(r) == DecimalValue([]) * 10 + DigitValue(r[0]);
    }
  }

  /** Python's `str()` of an integer: a sign for negatives, then the digits. */
  function IntToDecimal(n: int): (r: string)
    ensures r != []
    ensures r[0] == '-' <==> n < 0
    ensures forall i :: 0 < i < |r| ==> '0' <= r[i] <= '9'
    ensures n >= 0 ==> '0' <= r[0] <= '9'
  {
    if n < 0 then "-" + NatToDecimal(-n) else NatToDecimal(n)
  }

  /** `str()` of an integer reads back as that integer, so distinct numbers render differently. */
  lemma IntToDecimalValue(n: int)
    ensures SignedValue(IntToDecimal(n)) == n
  {
    var r := IntToDecimal(n);
    if n < 0 {
      assert r[1..] == NatToDecimal(-n);
      NatToDecimalValue(-n);
    } else {
      NatToDecimalValue(n);
    }
  }

  /** Distinct integers never render to the same text. */
  lemma IntToDecimalInjective(m: int, n: int)
    requires IntToDecimal(m) == IntToDecimal(n)
    ensures m == n
  {
    IntToDecimalValue(m);
    IntToDecimalValue(n);
  }

  /** `str(v)` for a cell value `v` that is not `None`. */
  function CellText(c: Cell): string {
    match c
    case Str(t) => t
    case Num(n) => IntToDecimal(n)
    case Other(shown) => shown
  }

  /**
   * How the header scan normalises a cell: `norm(v) if v is not None else ""`,
   * where `norm` is `str(v).strip().lower()`.
   */
  function NormCell(c: Option<Cell>): string {
    if c.None? then "" else Lower(Trim(CellText(c.value)))
  }

  /** A normalised cell has no whitespace at either end and no upper-case ASCII letter. */
  lemma NormCellNormalised(c: Option<Cell>)
    ensures IsTrimmed(NormCell(c)) && Lower(NormCell(c)) == NormCell(c)
  {
    if c.Some? {
      var t := Trim(CellText(c.value));
      LowerTrim(t);
      TrimTrimmed(t);
      LowerIdempotent(t);
    }
  }

  /**
   * Header matching is insensitive to case and to surrounding whitespace: a
   * text cell padded with whitespace normalises to the same string as any
   * text that differs from it only in letter case.
   */
  lemma NormIgnoresCaseAndPadding(pre: string, s: string, post: string, t: string)
    requires AllSpace(pre) && AllSpace(post)
    requires Lower(s) == Lower(t)
    ensures NormCell(Some(Str(pre + s + post))) == NormCell(Some(Str(t)))
  {
    TrimIgnoresPadding(pre, s, post);
    LowerTrim(s);
    LowerTrim(t);
  }

  /** Header names recognised for the filename column. */
  const FilenameAliases: set<string> := {"filename", "file", "name", "pdf", "pdfname", "文件名", "文件", "名称"}

  /** Header names recognised for the password column. */
  const PasswordAliases: set<string> := {"password", "pwd", "pass", "密码"}

  /** `values` in `detect_columns`: every cell of the first row, normalised. */
  function NormRow(row: seq<Option<Cell>>): seq<string> {
    seq(|row|, i requires 0 <= i < |row| => NormCell(row[i]))
  }

  /** `i` is the index of the last value in `aliases`. */
  predicate IsLastAlias(values: seq<string>, aliases: set<string>, i: nat) {
    && i < |values|
    && values[i] in aliases
    && forall j :: i < j < |values| ==> values[j] !in aliases
  }

  /** The index of the last value in `aliases`, if any. */
  function LastAlias(values: seq<string>, aliases: set<string>): (r: Option<nat>)
    ensures r.None? <==> forall i :: 0 <= i < |values| ==> values[i] !in aliases
    ensures r.Some? ==> IsLastAlias(values, aliases, r.value)
  {
    if values == [] then None
    else if values[|values| - 1] in aliases then Some(|values| - 1)
    else
      var r := LastAlias(values[..|values| - 1], aliases);
      assert forall j :: 0 <= j < |values| - 1 ==> values[..|values| - 1][j] == values[j];
      r
  }

  /** The outcome of `detect_columns`: 0-based column indices and whether row 0 is a header. */
  datatype Columns = Columns(fnCol: nat, pwCol: nat, hasHeader: bool)

  /** Some normalised value is a filename or password header name. */
  predicate HasHeaderName(values: seq<string>) {
    exists i :: 0 <= i < |values| && (values[i] in FilenameAliases || values[i] in PasswordAliases)
  }

  /**
   * The columns chosen from the normalised first row. It is a header exactly
   * when one of its values is a filename or password header name. The
   * filename column is then the last filename header (column 0 if there is
   * none) and the password column the last password header (column 1 if
   * there is none). Without a header the columns are 0 and 1.
   */
  function HeaderColumns(values: seq<string>): (c: Columns)
    ensures c.hasHeader <==> HasHeaderName(values)
    ensures !c.hasHeader ==> c.fnCol == 0 && c.pwCol == 1
    ensures c.hasHeader ==> if exists i :: 0 <= i < |values| && values[i] in FilenameAliases
                            then IsLastAlias(values, FilenameAliases, c.fnCol) else c.fnCol == 0
    ensures c.hasHeader ==> if exists i :: 0 <= i < |values| && values[i] in PasswordAliases
                            then IsLastAlias(values, PasswordAliases, c.pwCol) else c.pwCol == 1
  {
    var f := LastAlias(values, FilenameAliases);
    var p := LastAlias(values, PasswordAliases);
    if f.None? && p.None? then Columns(0, 1, false)
    else Columns(f.GetOr(0), p.GetOr(1), true)
  }

  /** What `detect_columns` decides for a first row. */
  function DetectedColumns(row: seq<Option<Cell>>): Columns {
    HeaderColumns(NormRow(row))
  }

  /** The loop of `detect_columns`: one pass over the values, remembering the last match of each alias set. */
  method ScanHeader(values: seq<string>) returns (fnIdx: nat, pwIdx: nat, hasHeader: bool)
    ensures Columns(fnIdx, pwIdx, hasHeader) == HeaderColumns(values)
  {
    var fnSeen: Option<nat> := None;
    var pwSeen: Option<nat> := None;
    for i := 0 to |values|
      invariant fnSeen == LastAlias(values[..i], FilenameAliases)
      invariant pwSeen == LastAlias(values[..i], PasswordAliases)
    {
      assert values[..i + 1][..i] == values[..i];
      if values[i] in FilenameAliases {
        fnSeen := Some(i);
      }
      if values[i] in PasswordAliases {
        pwSeen := Some(i);
      }
    }
    assert values[..|values|] == values;
    hasHeader := fnSeen.Some? || pwSeen.Some?;
    if !hasHeader {
      return 0, 1, false;
    }
    fnIdx := if fnSeen.None? then 0 else fnSeen.value;
    pwIdx := if pwSeen.None? then 1 else pwSeen.value;
  }

  /**
   * Two cells a header scan cannot tell apart: equal, or two texts that are
   * the same once surrounding whitespace is stripped and letters lowered.
   */
  predicate SameHeaderText(c: Option<Cell>, d: Option<Cell>) {
    || c == d
    || (&& c.Some? && d.Some? && c.value.Str? && d.value.Str?
        && Lower(Trim(c.value.text)) == Lower(Trim(d.value.text)))
  }

  /** Padding a text cell with whitespace and changing the case of its letters keeps it the same header text. */
  lemma PaddingKeepsHeaderText(pre: string, s: string, post: string, t: string)
    requires AllSpace(pre) && AllSpace(post)
    requires Lower(s) == Lower(t)
    ensures SameHeaderText(Some(Str(pre + s + post)), Some(Str(t)))
  {
    NormIgnoresCaseAndPadding(pre, s, post, t);
  }

  /**
   * Column detection ignores case and surrounding whitespace: two first rows
   * whose cells are pairwise the same header text give the same columns and
   * the same header decision.
   */
  lemma DetectedIgnoresCaseAndPadding(r1: seq<Option<Cell>>, r2: seq<Option<Cell>>)
    requires |r1| == |r2|
    requires forall i :: 0 <= i < |r1| ==> SameHeaderText(r1[i], r2[i])
    ensures DetectedColumns(r1) == DetectedColumns(r2)
  {
    assert forall i :: 0 <= i < |r1| ==> NormCell(r1[i]) == NormCell(r2[i]);
    assert NormRow(r1) == NormRow(r2);
  }

  /** `detect_columns`: normalise the first row, then scan it. */
  method DetectColumns(firstRow: seq<Option<Cell>>) returns (fnIdx: nat, pwIdx: nat, hasHeader: bool)
    ensures Columns(fnIdx, pwIdx, hasHeader) == DetectedColumns(firstRow)
  {
    var values := NormRow(firstRow);
    fnIdx, pwIdx, hasHeader := ScanHeader(values);
  }

  /** `r[col] if col < len(r) else None`. */
  function CellAt(cells: seq<Option<Cell>>, col: nat): Option<Cell> {
    if col < |cells| then cells[col] else None
  }

  /** `v is None or str(v).strip() == ""`. */
  predicate Blank(c: Option<Cell>) {
    c.None? || Trim(CellText(c.value)) == ""
  }

  /** An integer cell is never blank, so a numeric filename or password is always kept. */
  lemma NumberNeverBlank(n: int)
    ensures !Blank(Some(Num(n)))
  {
    TrimTrimmed(IntToDecimal(n));
  }

  /**
   * What one data row contributes: nothing when the row is `None`, or its
   * filename cell or password cell is missing (row too short) or blank;
   * otherwise the pair of the two cells' trimmed texts, both non-empty.
   */
  function RowEntry(row: Row, fnCol: nat, pwCol: nat): (e: Option<(string, string)>)
    ensures e.None? <==> row.None? || Blank(CellAt(row.value, fnCol)) || Blank(CellAt(row.value, pwCol))
    ensures e.Some? ==> && e.value.0 == Trim(CellText(CellAt(row.value, fnCol).value))
                        && e.value.1 == Trim(CellText(CellAt(row.value, pwCol).value))
                        && e.value.0 != "" && e.value.1 != ""
  {
    if row.None? then None
    else
      var fn := CellAt(row.value, fnCol);
      var pw := CellAt(row.value, pwCol);
      if Blank(fn) || Blank(pw) then None
      else Some((Trim(CellText(fn.value)), Trim(CellText(pw.value))))
  }

  /** The contribution of each data row, in sheet order. */
  function RowEntries(rows: seq<Row>, fnCol: nat, pwCol: nat): (es: seq<Option<(string, string)>>)
    ensures |es| == |rows|
  {
    if rows == [] then []
    else RowEntries(rows[..|rows| - 1], fnCol, pwCol) + [RowEntry(rows[|rows| - 1], fnCol, pwCol)]
  }

  /** Contribution `i` is row `i`'s. */
  lemma {:induction false} RowEntriesAt(rows: seq<Row>, fnCol: nat, pwCol: nat, i: nat)
    requires i < |rows|
    ensures RowEntries(rows, fnCol, pwCol)[i] == RowEntry(rows[i], fnCol, pwCol)
  {
    var n := |rows| - 1;
    if i < n {
      RowEntriesAt(rows[..n], fnCol, pwCol, i);
    }
  }

  /** A loaded mapping: unique keys; every filename and password trimmed and non-empty. */
  predicate WellFormed(d: Dict<string, string>) {
    && UniqueKeys(d)
    && forall i :: 0 <= i < |d| ==> d[i].0 != "" && IsTrimmed(d[i].0) && d[i].1 != "" && IsTrimmed(d[i].1)
  }

  /** The mapping the data rows build when the filename and password are read from the given columns. */
  function LoadRows(rows: seq<Row>, fnCol: nat, pwCol: nat): (d: Dict<string, string>)
    ensures WellFormed(d)
  {
    var es := RowEntries(rows, fnCol, pwCol);
    var d := Build(es);
    forall i | 0 <= i < |d|
      ensures d[i].0 != "" && IsTrimmed(d[i].0) && d[i].1 != "" && IsTrimmed(d[i].1)
    {
      BuildPairs(es, i);
      var j :| 0 <= j < |es| && es[j] == Some(d[i]);
      RowEntriesAt(rows, fnCol, pwCol, j);
    }
    d
  }

  /** The row supplies a password for `key`. */
  predicate Supplies(row: Row, fnCol: nat, pwCol: nat, key: string) {
    Assigns(RowEntry(row, fnCol, pwCol), key)
  }

  /**
   * Row `i` supplies `(key, password)` and no later row of `rows` supplies
   * `key` (stated on the rows' contributions, `RowEntries`).
   */
  predicate LastSupplier(rows: seq<Row>, fnCol: nat, pwCol: nat, key: string, password: string, i: nat) {
    IsLastAssignment(RowEntries(rows, fnCol, pwCol), key, password, i)
  }

  /** `key` is in the loaded mapping exactly when some row supplies it. */
  lemma LoadRowsHasKey(rows: seq<Row>, fnCol: nat, pwCol: nat, key: string)
    ensures Get(LoadRows(rows, fnCol, pwCol), key).None? <==> forall i :: 0 <= i < |rows| ==> !Supplies(rows[i], fnCol, pwCol, key)
  {
    var es := RowEntries(rows, fnCol, pwCol);
    BuildHasKey(es, key);
    forall i | 0 <= i < |rows| ensures Supplies(rows[i], fnCol, pwCol, key) <==> Assigns(es[i], key) {
      RowEntriesAt(rows, fnCol, pwCol, i);
    }
  }

  /**
   * Later rows win: the password of `key` in the loaded mapping is
   * `password` exactly when the last row supplying `key` gives `password`.
   */
  lemma LoadRowsLastWins(rows: seq<Row>, fnCol: nat, pwCol: nat, key: string, password: string)
    ensures Get(LoadRows(rows, fnCol, pwCol), key) == Some(password) <==> exists i: nat :: LastSupplier(rows, fnCol, pwCol, key, password, i)
  {
    var es := RowEntries(rows, fnCol, pwCol);
    BuildLastWins(es, key, password);
    assert LoadRows(rows, fnCol, pwCol) == Build(es);
    if LastAssigns(es, key, password) {
      var i: nat :| IsLastAssignment(es, key, password, i);
      assert LastSupplier(rows, fnCol, pwCol, key, password, i);
    }
    if exists i: nat :: LastSupplier(rows, fnCol, pwCol, key, password, i) {
      var i: nat :| LastSupplier(rows, fnCol, pwCol, key, password, i);
      assert IsLastAssignment(es, key, password, i);
    }
  }

  /** A row leaves every key it does not supply as it was. */
  lemma RowTouchesOnlyItsKey(rows: seq<Row>, row: Row, fnCol: nat, pwCol: nat, key: string)
    requires !Supplies(row, fnCol, pwCol, key)
    ensures Get(LoadRows(rows + [row], fnCol, pwCol), key) == Get(LoadRows(rows, fnCol, pwCol), key)
  {
    var es := RowEntries(rows + [row], fnCol, pwCol);
    assert (rows + [row])[..|rows|] == rows;
    assert es[..|es| - 1] == RowEntries(rows, fnCol, pwCol);
    BuildGetStep(es, key);
  }

  /** Why loading fails; each makes the script exit with status 2. */
  datatype LoadError =
    | Unreadable               // the workbook cannot be opened
    | SheetNotFound(name: string)
    | EmptySheet               // the sheet has no rows
    | FirstRowMissing          // `detect_columns(None)` raises

  /** An opened workbook: its sheets by name and the active sheet. */
  datatype Workbook = Workbook(sheets: map<string, seq<Row>>, active: seq<Row>)

  /**
   * Sheet selection: a non-empty sheet name must name a sheet of the
   * workbook; no name, or the empty name, selects the active sheet.
   */
  function SelectSheet(book: Workbook, sheet: Option<string>): (r: Result<seq<Row>, LoadError>)
    ensures r.Failure? <==> sheet.Some? && sheet.value != "" && sheet.value !in book.sheets
    ensures r.Failure? ==> r.error == SheetNotFound(sheet.value)
    ensures r.Success? && sheet.Some? && sheet.value != "" ==> r.value == book.sheets[sheet.value]
    ensures r.Success? && (sheet.None? || sheet.value == "") ==> r.value == book.active
  {
    if sheet.Some? && sheet.value != "" then
      if sheet.value in book.sheets then Success(book.sheets[sheet.value]) else Failure(SheetNotFound(sheet.value))
    else Success(book.active)
  }

  /** The first data row: 1 when row 0 is a header, else 0. */
  function DataStart(firstRow: seq<Option<Cell>>): nat {
    if DetectedColumns(firstRow).hasHeader then 1 else 0
  }

  /** What `load_mapping_from_excel` returns or raises. */
  function Loaded(book: Option<Workbook>, sheet: Option<string>): (r: Result<Dict<string, string>, LoadError>)
    ensures r.Success? ==> WellFormed(r.value)
    ensures r == Failure(EmptySheet) <==> book.Some? && SelectSheet(book.value, sheet) == Success([])
    ensures r == Failure(Unreadable) <==> book.None?
  {
    if book.None? then Failure(Unreadable)
    else
      match SelectSheet(book.value, sheet)
      case Failure(e) => Failure(e)
      case Success(rows) =>
        if rows == [] then Failure(EmptySheet)
        else if rows[0].None? then Failure(FirstRowMissing)
        else
          var c := DetectedColumns(rows[0].value);
          Success(LoadRows(rows[DataStart(rows[0].value)..], c.fnCol, c.pwCol))
  }

  /** The contributions of a suffix of the rows are the same suffix of the contributions. */
  lemma RowEntriesSuffix(rows: seq<Row>, start: nat, fnCol: nat, pwCol: nat)
    requires start <= |rows|
    ensures RowEntries(rows[start..], fnCol, pwCol) == RowEntries(rows, fnCol, pwCol)[start..]
  {
    var es, ds := RowEntries(rows, fnCol, pwCol), RowEntries(rows[start..], fnCol, pwCol);
    forall i | 0 <= i < |ds| ensures ds[i] == es[start..][i] {
      RowEntriesAt(rows[start..], fnCol, pwCol, i);
      RowEntriesAt(rows, fnCol, pwCol, start + i);
    }
  }

  /** Loading the rows from `start` on: only rows at or after `start` can supply a password. */
  lemma LoadSuffixLastWins(rows: seq<Row>, start: nat, fnCol: nat, pwCol: nat, key: string, password: string)
    requires start <= |rows|
    ensures Get(LoadRows(rows[start..], fnCol, pwCol), key) == Some(password) <==>
      exists i: nat :: start <= i && LastSupplier(rows, fnCol, pwCol, key, password, i)
  {
    LoadRowsLastWins(rows[start..], fnCol, pwCol, key, password);
    SuffixSupplier(rows, start, fnCol, pwCol, key, password);
  }

  /** A row of `rows[start..]` is the last supplier there exactly when its shifted row is one of `rows`. */
  lemma SuffixSupplier(rows: seq<Row>, start: nat, fnCol: nat, pwCol: nat, key: string, password: string)
    requires start <= |rows|
    ensures (exists i: nat :: LastSupplier(rows[start..], fnCol, pwCol, key, password, i)) <==>
      exists i: nat :: start <= i && LastSupplier(rows, fnCol, pwCol, key, password, i)
  {
    if exists i: nat :: LastSupplier(rows[start..], fnCol, pwCol, key, password, i) {
      var i: nat :| LastSupplier(rows[start..], fnCol, pwCol, key, password, i);
      SupplierShift(rows, start, fnCol, pwCol, key, password, i);
    }
    if exists i: nat :: start <= i && LastSupplier(rows, fnCol, pwCol, key, password, i) {
      var i: nat :| start <= i && LastSupplier(rows, fnCol, pwCol, key, password, i);
      SupplierShift(rows, start, fnCol, pwCol, key, password, i - start);
    }
  }

  /** Row `i` of `rows[start..]` is the last supplier there exactly when row `start + i` is one of `rows`. */
  lemma SupplierShift(rows: seq<Row>, start: nat, fnCol: nat, pwCol: nat, key: string, password: string, i: nat)
    requires start <= |rows|
    ensures LastSupplier(rows[start..], fnCol, pwCol, key, password, i) <==> LastSupplier(rows, fnCol, pwCol, key, password, start + i)
  {
    RowEntriesSuffix(rows, start, fnCol, pwCol);
    LastAssignmentShift(RowEntries(rows, fnCol, pwCol), start, key, password, i);
  }

  /**
   * The loaded mapping reads the sheet's rows from `DataStart` on: row 0 is
   * skipped exactly when it was recognised as a header, and among the rows
   * read the last one supplying a filename decides its password.
   */
  lemma LoadedLastWins(book: Workbook, sheet: Option<string>, rows: seq<Row>, key: string, password: string)
    requires SelectSheet(book, sheet) == Success(rows) && rows != [] && rows[0].Some?
    ensures var c := DetectedColumns(rows[0].value);
      && Loaded(Some(book), sheet).Success?
      && (Get(Loaded(Some(book), sheet).value, key) == Some(password) <==>
          exists i: nat :: DataStart(rows[0].value) <= i && LastSupplier(rows, c.fnCol, c.pwCol, key, password, i))
  {
    var c := DetectedColumns(rows[0].value);
    LoadSuffixLastWins(rows, DataStart(rows[0].value), c.fnCol, c.pwCol, key, password);
  }

  /**
   * The row loop of `load_mapping_from_excel`: for each data row, read the
   * two target cells (missing when the row is too short), skip the row if
   * either is blank, else assign the trimmed password to the trimmed filename.
   */
  method FillMapping(data: seq<Row>, fnCol: nat, pwCol: nat) returns (mapping: Dict<string, string>)
    ensures mapping == LoadRows(data, fnCol, pwCol)
  {
    mapping := [];
    for i := 0 to |data|
      invariant mapping == LoadRows(data[..i], fnCol, pwCol)
    {
      ghost var entries := RowEntries(data[..i + 1], fnCol, pwCol);
      assert data[..i + 1][..i] == data[..i];
      assert entries[..i] == RowEntries(data[..i], fnCol, pwCol);
      assert entries[i] == RowEntry(data[i], fnCol, pwCol);
      var row := data[i];
      if row.None? {
        continue;
      }
      var fn := if fnCol < |row.value| then row.value[fnCol] else None;
      var pw := if pwCol < |row.value| then row.value[pwCol] else None;
      if fn.None? || Trim(CellText(fn.value)) == "" {
        continue;
      }
      if pw.None? || Trim(CellText(pw.value)) == "" {
        continue;
      }
      var filename := Trim(CellText(fn.value));
      var password := Trim(CellText(pw.value));
      mapping := Put(mapping, filename, password);
    }
    assert data[..|data|] == data;
  }

  /** `load_mapping_from_excel`: select the sheet, classify the first row, then load the data rows. */
  method LoadMapping(book: Option<Workbook>, sheet: Option<string>) returns (r: Result<Dict<string, string>, LoadError>)
    ensures r == Loaded(book, sheet)
  {
    if book.None? {
      return Failure(Unreadable);
    }
    var selected := SelectSheet(book.value, sheet);
    if selected.Failure? {
      return Failure(selected.error);
    }
    var rows := selected.value;
    if |rows| == 0 {
      return Failure(EmptySheet);
    }
    if rows[0].None? {
      return Failure(FirstRowMissing);
    }
    var fnCol, pwCol, hasHeader := DetectColumns(rows[0].value);
    var start := if hasHeader then 1 else 0;
    var mapping := FillMapping(rows[start..], fnCol, pwCol);
    return Success(mapping);
  }
}
