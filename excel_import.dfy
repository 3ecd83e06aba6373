/** What `uploadPostsFromExcel` does before it saves anything: the two upload
    gates and the header-skipping row scan that turns the first sheet into
    candidate posts and warnings. */
module ExcelImport {
  import opened Wrappers
  import opened JavaText
  import opened Spreadsheet
  import opened PostStore

  const FILE_EMPTY := "File is empty"
  const NOT_EXCEL := "File must be an Excel file (.xlsx or .xls)"
  const NO_VALID_POSTS := "No valid posts found in Excel file"

  /** What opening the uploaded bytes and taking the first sheet gives: that
      sheet; an IllegalArgumentException with its message (how POI rejects a
      format the XSSF reader does not take, or a workbook without a sheet),
      which the upload re-throws unchanged; or an IOException. */
  datatype Workbook = Readable(first: Sheet) | Rejected(message: string) | Unreadable

  /** The uploaded MultipartFile: its size, its original filename (possibly
      null) and what the decoder makes of its bytes. */
  datatype UploadedFile = UploadedFile(size: nat, originalFilename: Option<string>, content: Workbook)

  /** The extension gate: a filename that ends, case-sensitively, in ".xlsx" or ".xls". */
  predicate IsExcelFileName(name: Option<string>) {
    name.Some? && (EndsWith(name.value, ".xlsx") || EndsWith(name.value, ".xls"))
  }

  /** The gate accepts exactly the names made of some text followed by ".xlsx"
      or by ".xls"; a null name is refused. */
  lemma ExcelFileNameIff(name: Option<string>)
    ensures IsExcelFileName(name) <==>
      name.Some? && ((exists p :: p + ".xlsx" == name.value) || (exists p :: p + ".xls" == name.value))
  {
    if name.Some? {
      EndsWithIff(name.value, ".xlsx");
      EndsWithIff(name.value, ".xls");
    }
  }

  /** The title a row's first cell gives, if any. */
  function RowTitle(row: Row): Option<string> {
    CellValueAsString(GetCell(row, 0))
  }

  /** The row has a title that is not empty after trimming. */
  predicate HasTitle(row: Row) {
    RowTitle(row).Some? && Trim(RowTitle(row).value) != ""
  }

  /** Which first cells pass the title check: a numeric or boolean cell always
      does; a string cell does exactly when it holds a character above U+0020;
      a missing, blank or other cell never does. */
  lemma HasTitleIff(row: Row)
    ensures GetCell(row, 0) in {None, Some(Blank), Some(Other)} ==> !HasTitle(row)
    ensures GetCell(row, 0).Some? && (GetCell(row, 0).value.Num? || GetCell(row, 0).value.Bool?) ==> HasTitle(row)
    ensures GetCell(row, 0).Some? && GetCell(row, 0).value.Str? ==>
      (HasTitle(row) <==> exists k :: 0 <= k < |GetCell(row, 0).value.text| && !IsTrimmable(GetCell(row, 0).value.text[k]))
  {
    var cell := GetCell(row, 0);
    CellValueAsStringFacts(cell);
    if cell.Some? {
      match cell.value
      case Str(text) =>
        TrimIdempotent(text);
        TrimEmptyIff(text);
      case Num(n) => NumericCellHasText(n);
      case Bool(b) =>
        assert Trim(if b then "true" else "false") == (if b then "true" else "false");
      case Blank =>
      case Other =>
    }
  }

  /** The candidate post a titled row becomes: title from column 0, description
      from column 1 or "" when that cell gives null, no id. */
  function ToCandidate(row: Row): PostDto
    requires HasTitle(row)
  {
    PostDto(None, RowTitle(row).value, CellValueAsString(GetCell(row, 1)).GetOr(""))
  }

  /** A candidate has no id, a trimmed non-empty title and a trimmed description. */
  lemma CandidateFacts(row: Row)
    requires HasTitle(row)
    ensures ToCandidate(row).id == None
    ensures Trim(ToCandidate(row).title) == ToCandidate(row).title != ""
    ensures Trim(ToCandidate(row).description) == ToCandidate(row).description
  {
    CellValueAsStringFacts(GetCell(row, 0));
    CellValueAsStringFacts(GetCell(row, 1));
    TrimKeepsTrimmed("");
  }

  /** Where a candidate's fields come from: the title is the text of cell 0 and
      the description the text of cell 1, each as `CellValueAsString` gives it
      (a string cell trimmed, a numeric cell in decimal, a boolean as
      "true"/"false"); the description is "" when cell 1 is missing, blank or
      of another kind. */
  lemma CandidateFields(row: Row)
    requires HasTitle(row)
    ensures GetCell(row, 0).Some? && GetCell(row, 0).value.Str? ==>
      ToCandidate(row).title == Trim(GetCell(row, 0).value.text)
    ensures GetCell(row, 0).Some? && GetCell(row, 0).value.Num? ==>
      ToCandidate(row).title == LongToString(GetCell(row, 0).value.number)
    ensures GetCell(row, 0).Some? && GetCell(row, 0).value.Bool? ==>
      ToCandidate(row).title == (if GetCell(row, 0).value.flag then "true" else "false")
    ensures GetCell(row, 1) in {None, Some(Blank), Some(Other)} ==> ToCandidate(row).description == ""
    ensures GetCell(row, 1).Some? && GetCell(row, 1).value.Str? ==>
      ToCandidate(row).description == Trim(GetCell(row, 1).value.text)
    ensures GetCell(row, 1).Some? && GetCell(row, 1).value.Num? ==>
      ToCandidate(row).description == LongToString(GetCell(row, 1).value.number)
    ensures GetCell(row, 1).Some? && GetCell(row, 1).value.Bool? ==>
      ToCandidate(row).description == (if GetCell(row, 1).value.flag then "true" else "false")
  {
    CellValueAsStringFacts(GetCell(row, 0));
    CellValueAsStringFacts(GetCell(row, 1));
  }

  /** The two lists the row loop fills: candidate posts, and the indices of rows
      skipped for a missing title. */
  datatype Scan = Scan(candidates: seq<PostDto>, warnings: seq<nat>)

  /** One turn of the row loop, for row index `i`. */
  function Visit(acc: Scan, i: nat, row: Option<Row>): Scan {
    match row
    case None => acc
    case Some(r) =>
      if HasTitle(r) then acc.(candidates := acc.candidates + [ToCandidate(r)])
      else acc.(warnings := acc.warnings + [i])
  }

  /** The lists after the loop has visited rows 1 .. n-1. */
  function ScanUpTo(rows: seq<Option<Row>>, n: nat): Scan {
    if n <= 1 then Scan([], []) else Visit(ScanUpTo(rows, n - 1), n - 1, GetRow(rows, n - 1))
  }

  /** The lists after the loop has visited rows 1 .. lastRowNum. */
  function ScanSheet(sheet: Sheet): Scan {
    ScanUpTo(sheet.rows, |sheet.rows|)
  }

  /** The row loop of `uploadPostsFromExcel`: row 0 is never read; every later
      row up to the last is visited once, in order. */
  method CollectPosts(sheet: Sheet) returns (postsToSave: seq<PostDto>, warnings: seq<nat>)
    ensures Scan(postsToSave, warnings) == ScanSheet(sheet)
  {
    postsToSave, warnings := [], [];
    var lastRowNum := |sheet.rows| - 1;
    var i := 1;
    while i <= lastRowNum
      invariant 1 <= i && (i <= |sheet.rows| || i == 1)
      invariant Scan(postsToSave, warnings) == ScanUpTo(sheet.rows, i)
    {
      var row := GetRow(sheet.rows, i);
      if row.Some? {
        var title := CellValueAsString(GetCell(row.value, 0));
        var description := CellValueAsString(GetCell(row.value, 1));
        if title.None? || Trim(title.value) == "" {
          warnings := warnings + [i];
        } else {
          postsToSave := postsToSave + [PostDto(None, title.value, if description.Some? then description.value else "")];
        }
      }
      i := i + 1;
    }
  }

  // ---- Reference definitions and what the scan is proved to do ----

  /** The candidates a single row contributes. */
  function Accept(row: Option<Row>): seq<PostDto> {
    match row
    case None => []
    case Some(r) => if HasTitle(r) then [ToCandidate(r)] else []
  }

  /** Filter-and-map reading of the data rows, from the front. */
  function Accepted(rows: seq<Option<Row>>): seq<PostDto> {
    if rows == [] then [] else Accept(rows[0]) + Accepted(rows[1..])
  }

  /** The number of rows that exist. */
  function PresentCount(rows: seq<Option<Row>>): nat {
    if rows == [] then 0 else (if rows[0].Some? then 1 else 0) + PresentCount(rows[1..])
  }

  /** The data rows: all rows but the header row 0. */
  function DataRows(rows: seq<Option<Row>>): seq<Option<Row>> {
    if rows == [] then [] else rows[1..]
  }

  /** Growing a slice by one element at its end. */
  lemma SliceSnoc<T>(s: seq<T>, i: nat, j: nat)
    requires i < j <= |s|
    ensures s[i..j] == s[i..j - 1] + [s[j - 1]]
  {
  }

  lemma {:induction false} AcceptedAppend(rows: seq<Option<Row>>, row: Option<Row>)
    ensures Accepted(rows + [row]) == Accepted(rows) + Accept(row)
  {
    if rows == [] {
      assert rows + [row] == [row];
      assert [row][1..] == [];
    } else {
      var whole := rows + [row];
      assert whole[0] == rows[0];
      assert whole[1..] == rows[1..] + [row];
      AcceptedAppend(rows[1..], row);
      var head, tail, last := Accept(rows[0]), Accepted(rows[1..]), Accept(row);
      assert Accepted(whole) == head + (tail + last);
      assert Accepted(rows) == head + tail;
      assert head + (tail + last) == (head + tail) + last;
    }
  }

  lemma {:induction false} PresentCountAppend(rows: seq<Option<Row>>, row: Option<Row>)
    ensures PresentCount(rows + [row]) == PresentCount(rows) + (if row.Some? then 1 else 0)
  {
    if rows != [] {
      assert (rows + [row])[1..] == rows[1..] + [row];
      PresentCountAppend(rows[1..], row);
    } else {
      assert [row][1..] == [];
    }
  }

  /** One turn of the loop adds the row's candidate, or its warning, or nothing. */
  lemma VisitShape(acc: Scan, i: nat, row: Option<Row>)
    ensures Visit(acc, i, row).candidates == acc.candidates + Accept(row)
    ensures Visit(acc, i, row).warnings ==
      acc.warnings + (if row.Some? && !HasTitle(row.value) then [i] else [])
  {
  }

  /** The candidates gathered from rows 1 .. n-1 are the titled ones, in order. */
  lemma {:induction false} ScanUpToCandidates(rows: seq<Option<Row>>, n: nat)
    requires 1 <= n <= |rows|
    ensures ScanUpTo(rows, n).candidates == Accepted(rows[1..n])
  {
    if n == 1 {
      assert rows[1..1] == [];
    } else {
      var prev := ScanUpTo(rows, n - 1);
      ScanUpToCandidates(rows, n - 1);
      assert ScanUpTo(rows, n) == Visit(prev, n - 1, rows[n - 1]);
      VisitShape(prev, n - 1, rows[n - 1]);
      SliceSnoc(rows, 1, n);
      AcceptedAppend(rows[1..n - 1], rows[n - 1]);
    }
  }

  /** The warnings gathered from rows 1 .. n-1 are the present untitled rows, in
      increasing order. */
  lemma {:induction false} ScanUpToWarnings(rows: seq<Option<Row>>, n: nat)
    requires 1 <= n <= |rows|
    ensures forall j :: j in ScanUpTo(rows, n).warnings <==>
      1 <= j < n && rows[j].Some? && !HasTitle(rows[j].value)
    ensures forall a, b :: 0 <= a < b < |ScanUpTo(rows, n).warnings| ==>
      ScanUpTo(rows, n).warnings[a] < ScanUpTo(rows, n).warnings[b]
    ensures forall a :: 0 <= a < |ScanUpTo(rows, n).warnings| ==> ScanUpTo(rows, n).warnings[a] < n
  {
    if n > 1 {
      var prev := ScanUpTo(rows, n - 1);
      ScanUpToWarnings(rows, n - 1);
      assert ScanUpTo(rows, n) == Visit(prev, n - 1, rows[n - 1]);
      VisitShape(prev, n - 1, rows[n - 1]);
    }
  }

  /** Every present row among 1 .. n-1 gives exactly one candidate or one warning. */
  lemma {:induction false} ScanUpToCount(rows: seq<Option<Row>>, n: nat)
    requires 1 <= n <= |rows|
    ensures |ScanUpTo(rows, n).candidates| + |ScanUpTo(rows, n).warnings| == PresentCount(rows[1..n])
  {
    if n == 1 {
      assert rows[1..1] == [];
    } else {
      ScanUpToCount(rows, n - 1);
      VisitShape(ScanUpTo(rows, n - 1), n - 1, rows[n - 1]);
      SliceSnoc(rows, 1, n);
      PresentCountAppend(rows[1..n - 1], rows[n - 1]);
    }
  }

  /** The scan of a whole sheet: the candidates are the titled data rows in row
      order, each present data row is either a candidate or a warning, the
      warnings are exactly the untitled present data rows, in increasing order. */
  lemma ScanSheetFacts(sheet: Sheet)
    ensures ScanSheet(sheet).candidates == Accepted(DataRows(sheet.rows))
    ensures |ScanSheet(sheet).candidates| + |ScanSheet(sheet).warnings| == PresentCount(DataRows(sheet.rows))
    ensures forall j :: j in ScanSheet(sheet).warnings <==>
      1 <= j < |sheet.rows| && sheet.rows[j].Some? && !HasTitle(sheet.rows[j].value)
    ensures forall a, b :: 0 <= a < b < |ScanSheet(sheet).warnings| ==>
      ScanSheet(sheet).warnings[a] < ScanSheet(sheet).warnings[b]
  {
    if |sheet.rows| >= 1 {
      ScanUpToCandidates(sheet.rows, |sheet.rows|);
      ScanUpToWarnings(sheet.rows, |sheet.rows|);
      ScanUpToCount(sheet.rows, |sheet.rows|);
      assert sheet.rows[1..|sheet.rows|] == DataRows(sheet.rows);
    }
  }

  /** A row's candidate, if any, has no id and a trimmed non-empty title. */
  predicate WellFormedCandidate(post: PostDto) {
    post.id == None && Trim(post.title) == post.title != ""
  }

  /** Every candidate carries no id and a trimmed, non-empty title. */
  lemma {:induction false} AcceptedAreTitled(rows: seq<Option<Row>>)
    ensures forall k :: 0 <= k < |Accepted(rows)| ==> WellFormedCandidate(Accepted(rows)[k])
  {
    if rows != [] {
      AcceptedAreTitled(rows[1..]);
      var head := Accept(rows[0]);
      if rows[0].Some? && HasTitle(rows[0].value) {
        var c := ToCandidate(rows[0].value);
        assert head == [c];
        CandidateFacts(rows[0].value);
        assert WellFormedCandidate(c);
      } else {
        assert head == [];
      }
      assert Accepted(rows) == head + Accepted(rows[1..]);
    }
  }

  /** Row 0 is never read: replacing the header row changes nothing. */
  lemma {:induction false} HeaderIgnored(rows: seq<Option<Row>>, header: Option<Row>, n: nat)
    requires |rows| >= 1
    ensures ScanUpTo(rows[0 := header], n) == ScanUpTo(rows, n)
  {
    if n > 1 {
      HeaderIgnored(rows, header, n - 1);
      assert GetRow(rows[0 := header], n - 1) == GetRow(rows, n - 1);
    }
  }

  /** A sheet whose only data row has no title (no first cell, a blank or other
      cell, or a string of characters at or below U+0020 only, such as "   ")
      yields no candidate and one warning for row 1. */
  lemma BlankTitleOnlyRow(header: Option<Row>, row: Row)
    requires || GetCell(row, 0) in {None, Some(Blank), Some(Other)}
             || (GetCell(row, 0).Some? && GetCell(row, 0).value.Str? &&
                 forall k :: 0 <= k < |GetCell(row, 0).value.text| ==> IsTrimmable(GetCell(row, 0).value.text[k]))
    ensures ScanSheet(Sheet("Posts", [header, Some(row)])) == Scan([], [1])
  {
    var rows := [header, Some(row)];
    HasTitleIff(row);
    assert !HasTitle(row);
    assert ScanUpTo(rows, 2) == Visit(ScanUpTo(rows, 1), 1, Some(row));
  }

  /** Three data rows where row 2 has no title: rows 1 and 3 become the
      candidates and row 2 is the one warning. */
  lemma MiddleRowWithoutTitle(sheet: Sheet, r1: Row, r2: Row, r3: Row)
    requires |sheet.rows| == 4
    requires sheet.rows[1] == Some(r1) && sheet.rows[2] == Some(r2) && sheet.rows[3] == Some(r3)
    requires HasTitle(r1) && HasTitle(r3)
    requires !HasTitle(r2)
    ensures ScanSheet(sheet) == Scan([ToCandidate(r1), ToCandidate(r3)], [2])
  {
    var rows := sheet.rows;
    var c1, c3 := ToCandidate(r1), ToCandidate(r3);
    var s1, s2, s3 := ScanUpTo(rows, 2), ScanUpTo(rows, 3), ScanUpTo(rows, 4);
    assert ScanUpTo(rows, 1) == Scan([], []);
    assert GetRow(rows, 1) == Some(r1) && GetRow(rows, 2) == Some(r2) && GetRow(rows, 3) == Some(r3);
    assert s1 == Visit(Scan([], []), 1, Some(r1));
    VisitShape(Scan([], []), 1, Some(r1));
    assert s1 == Scan([c1], []);
    assert s2 == Visit(s1, 2, Some(r2));
    VisitShape(s1, 2, Some(r2));
    assert s2 == Scan([c1], [2]);
    assert s3 == Visit(s2, 3, Some(r3));
    VisitShape(s2, 3, Some(r3));
  }

  /** The extension gate compares exactly: upper-case or other extensions fail. */
  lemma ExtensionGateExamples()
    ensures IsExcelFileName(Some("posts.xlsx")) && IsExcelFileName(Some("posts.xls"))
    ensures !IsExcelFileName(Some("data.txt")) && !IsExcelFileName(Some("posts.XLSX"))
    ensures !IsExcelFileName(None)
  {
    assert "posts.xlsx"[5..] == ".xlsx";
    assert "posts.xls"[5..] == ".xls";
    assert "data.txt"[3..] != ".xlsx" && "data.txt"[4..] != ".xls";
    assert "posts.XLSX"[5..] != ".xlsx" && "posts.XLSX"[6..] != ".xls";
  }
}
