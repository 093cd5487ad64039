/**
 * The spreadsheet upload page: which files it accepts, the preview of the first data rows, and the
 * checks and row extraction that turn the first sheet into the work-order assignments handed to
 * the bulk-insert mutation.
 *
 * A sheet is what the spreadsheet reader returns with one array per row and "" for blank cells:
 * a sequence of rows, each a sequence of cell texts. A row may be shorter than the header row;
 * reading past its end gives `undefined`, modelled by `Cell` returning `None`.
 */
module Upload {
  import opened Wrappers
  import opened Text
  import opened Sequences

  // ---------------------------------------------------------------------------------------------
  // File selection

  const ValidExtensions: seq<string> := [".xlsx", ".xls", ".csv"]

  /**
   * `name.substring(name.lastIndexOf(".")).toLowerCase()`: from the last dot on, lower-cased; a
   * name without a dot is taken whole, since `substring(-1)` starts at 0.
   */
  function FileExtension(name: string): (ext: string)
    ensures '.' !in name ==> ext == Lower(name)
    ensures '.' in name ==> |ext| >= 1 && ext[0] == '.' && '.' !in ext[1..] && EndsWith(Lower(name), ext)
  {
    var i := LastIndexOf(name, '.');
    var ext := Lower(SubstringFrom(name, i));
    assert i != -1 ==> EndsWith(Lower(name), ext) by {
      if i != -1 { LowerSuffix(name, i); }
    }
    ext
  }

  /** The extension check of `handleFileChange`: a file is read only when this holds. */
  predicate IsAcceptedFile(name: string) {
    FileExtension(name) in ValidExtensions
  }

  /** Lower-casing maps a dot, and only a dot, to a dot. */
  lemma LowerCharDot(c: char)
    ensures LowerChar(c) == '.' <==> c == '.'
  {
  }

  /** Each accepted extension is a dot followed by dot-free text. */
  lemma ValidExtensionShape(e: string)
    requires e in ValidExtensions
    ensures |e| >= 1 && e[0] == '.' && '.' !in e[1..]
  {
  }

  /** Two suffixes of `l` that both start at a dot and contain no later dot are the same suffix. */
  lemma DotSuffixUnique(l: string, x: string, y: string)
    requires EndsWith(l, x) && |x| >= 1 && x[0] == '.' && '.' !in x[1..]
    requires EndsWith(l, y) && |y| >= 1 && y[0] == '.' && '.' !in y[1..]
    ensures x == y
  {
    var kx := |l| - |x|;
    var ky := |l| - |y|;
    assert l[kx] == x[0] && l[ky] == y[0];
    forall j | kx < j < |l| ensures l[j] != '.' {
      assert l[j] == x[1..][j - kx - 1];
    }
    forall j | ky < j < |l| ensures l[j] != '.' {
      assert l[j] == y[1..][j - ky - 1];
    }
  }

  /**
   * The extension check accepts exactly the names whose lower-cased form ends with ".xlsx", ".xls"
   * or ".csv".
   */
  lemma AcceptedIffEndsWith(name: string)
    ensures IsAcceptedFile(name) <==> exists e | e in ValidExtensions :: EndsWith(Lower(name), e)
  {
    var ext := FileExtension(name);
    var lname := Lower(name);
    if '.' !in name {
      forall e | e in ValidExtensions ensures e != lname && !EndsWith(lname, e) {
        ValidExtensionShape(e);
        if |e| <= |name| {
          LowerCharDot(name[|name| - |e|]);
          assert lname[|name| - |e|] == lname[|lname| - |e|..][0];
        }
      }
    } else {
      forall e | e in ValidExtensions && EndsWith(lname, e) ensures e == ext {
        ValidExtensionShape(e);
        DotSuffixUnique(lname, e, ext);
      }
    }
  }

  // ---------------------------------------------------------------------------------------------
  // Cells and headers

  type Row = seq<string>
  type Sheet = seq<Row>

  /** `row[index]`: the cell text, or `undefined` past the end of the row. */
  function Cell(row: Row, index: int): (r: Option<string>)
    ensures r.Some? <==> 0 <= index < |row|
    ensures r.Some? ==> r.value == row[index]
  {
    if 0 <= index < |row| then Some(row[index]) else None
  }

  /** The header names taken for the work-order column. */
  const WoidHeaders: seq<string> := ["workorderid", "work_order_id", "woid"]

  predicate IsAddressHeader(h: string) {
    h == "address"
  }

  predicate IsWoidHeader(h: string) {
    h in WoidHeaders
  }

  /** The preview matches a header after lower-casing it, without trimming. */
  predicate IsPreviewAddress(h: string) {
    IsAddressHeader(Lower(h))
  }

  predicate IsPreviewWoid(h: string) {
    IsWoidHeader(Lower(h))
  }

  /** The upload trims a header before lower-casing it. */
  function UploadHeader(h: string): string {
    Lower(Trim(h))
  }

  predicate IsUploadAddress(h: string) {
    IsAddressHeader(UploadHeader(h))
  }

  predicate IsUploadWoid(h: string) {
    IsWoidHeader(UploadHeader(h))
  }

  /** The recognised header names contain no whitespace. */
  lemma KnownHeaderNoWhitespace(name: string)
    requires IsAddressHeader(name) || IsWoidHeader(name)
    ensures forall i :: 0 <= i < |name| ==> !IsWhitespace(name[i])
  {
  }

  /** A header whose lower-cased form is a recognised name has no whitespace. */
  lemma RecognisedHeaderNoWhitespace(h: string)
    requires IsAddressHeader(Lower(h)) || IsWoidHeader(Lower(h))
    ensures forall i :: 0 <= i < |h| ==> !IsWhitespace(h[i])
  {
    KnownHeaderNoWhitespace(Lower(h));
    forall i | 0 <= i < |h| ensures !IsWhitespace(h[i]) {
      LowerCharWhitespace(h[i]);
    }
  }

  /** Without whitespace, the upload's normalisation of a header is plain lower-casing. */
  lemma UploadHeaderOfNoWhitespace(h: string)
    requires forall i :: 0 <= i < |h| ==> !IsWhitespace(h[i])
    ensures UploadHeader(h) == Lower(h)
  {
    TrimOfNoWhitespace(h);
  }

  /** A header the preview matches has no whitespace, so the upload matches it as well. */
  lemma PreviewHeaderIsUploadHeader(h: string)
    ensures IsPreviewAddress(h) ==> IsUploadAddress(h)
    ensures IsPreviewWoid(h) ==> IsUploadWoid(h)
  {
    if IsAddressHeader(Lower(h)) || IsWoidHeader(Lower(h)) {
      RecognisedHeaderNoWhitespace(h);
      UploadHeaderOfNoWhitespace(h);
    }
  }

  /**
   * Whenever the preview finds both columns the upload finds them too, at the same place or
   * earlier (an earlier padded header such as " Address" is matched only by the upload).
   */
  lemma PreviewColumnsFoundByUpload(headers: Row)
    requires FindIndex(headers, IsPreviewAddress) != -1 && FindIndex(headers, IsPreviewWoid) != -1
    ensures 0 <= FindIndex(headers, IsUploadAddress) <= FindIndex(headers, IsPreviewAddress)
    ensures 0 <= FindIndex(headers, IsUploadWoid) <= FindIndex(headers, IsPreviewWoid)
  {
    var a := FindIndex(headers, IsPreviewAddress);
    var w := FindIndex(headers, IsPreviewWoid);
    PreviewHeaderIsUploadHeader(headers[a]);
    PreviewHeaderIsUploadHeader(headers[w]);
  }

  /** A padded header is found by the upload but not by the preview. */
  lemma PaddedHeaderOnlyInUpload()
    ensures FindIndex([" Address"], IsPreviewAddress) == -1
    ensures FindIndex([" Address"], IsUploadAddress) == 0
  {
    var h := " Address";
    assert |Lower(h)| != |"address"|;
    PaddedAddressTrim();
    LowerAddress();
    assert IsUploadAddress(h);
    assert [h][0] == h;
  }

  lemma PaddedAddressTrim()
    ensures Trim(" Address") == "Address"
  {
    var h := " Address";
    assert IsWhitespace(h[0]);
    assert h[1] == 'A' && h[|h| - 1] == 's';
    TrimOfPadded(h, 1);
    assert h[1..] == "Address";
  }

  lemma LowerAddress()
    ensures Lower("Address") == "address"
  {
    var l := Lower("Address");
    assert LowerChar('A') == 'a';
    assert l[0] == 'a';
  }

  // ---------------------------------------------------------------------------------------------
  // Preview

  datatype PreviewRow = PreviewRow(address: string, workOrderId: string)

  datatype PreviewResult =
    | EmptyFile
    | PreviewMissingColumns
    | Preview(rows: seq<PreviewRow>)

  /** `row[index]?.toString().trim() || ""`. */
  function PreviewCell(row: Row, index: int): (r: string)
    ensures index < 0 || index >= |row| ==> r == ""
    ensures 0 <= index < |row| ==> r == Trim(row[index])
  {
    match Cell(row, index)
    case None => ""
    case Some(v) => Trim(v)
  }

  /**
   * The preview of `handleFileChange`: nothing for an empty sheet, an abort when a column is
   * missing, otherwise the trimmed address and work-order cells of at most the first five data
   * rows, in order.
   */
  method PreviewSheet(sheet: Sheet) returns (p: PreviewResult)
    ensures sheet == [] <==> p == EmptyFile
    ensures p == PreviewMissingColumns <==>
              sheet != [] && (FindIndex(sheet[0], IsPreviewAddress) == -1 || FindIndex(sheet[0], IsPreviewWoid) == -1)
    ensures p.Preview? ==> |p.rows| == (if |sheet| < 6 then |sheet| else 6) - 1
    ensures p.Preview? ==> forall j :: 0 <= j < |p.rows| ==>
              p.rows[j] == PreviewRow(PreviewCell(sheet[j + 1], FindIndex(sheet[0], IsPreviewAddress)),
                                      PreviewCell(sheet[j + 1], FindIndex(sheet[0], IsPreviewWoid)))
  {
    if |sheet| == 0 {
      return EmptyFile;
    }
    var headers := sheet[0];
    var addressIndex := FindIndex(headers, IsPreviewAddress);
    var woidIndex := FindIndex(headers, IsPreviewWoid);
    if addressIndex == -1 || woidIndex == -1 {
      return PreviewMissingColumns;
    }
    var rows: seq<PreviewRow> := [];
    var bound := if |sheet| < 6 then |sheet| else 6;
    var i := 1;
    while i < bound
      invariant 1 <= i <= bound
      invariant |rows| == i - 1
      invariant forall j :: 0 <= j < |rows| ==>
                  rows[j] == PreviewRow(PreviewCell(sheet[j + 1], addressIndex), PreviewCell(sheet[j + 1], woidIndex))
    {
      var row := sheet[i];
      rows := rows + [PreviewRow(PreviewCell(row, addressIndex), PreviewCell(row, woidIndex))];
      i := i + 1;
    }
    return Preview(rows);
  }

  /** A preview shows at most five rows, each with its cells already trimmed. */
  lemma PreviewRowsTrimmed(sheet: Sheet, p: PreviewResult)
    requires p.Preview? && |p.rows| == (if |sheet| < 6 then |sheet| else 6) - 1
    requires forall j :: 0 <= j < |p.rows| ==>
               p.rows[j] == PreviewRow(PreviewCell(sheet[j + 1], FindIndex(sheet[0], IsPreviewAddress)),
                                       PreviewCell(sheet[j + 1], FindIndex(sheet[0], IsPreviewWoid)))
    ensures |p.rows| <= 5
    ensures forall r | r in p.rows :: Trim(r.address) == r.address && Trim(r.workOrderId) == r.workOrderId
  {
    forall r | r in p.rows ensures Trim(r.address) == r.address && Trim(r.workOrderId) == r.workOrderId {
      var j :| 0 <= j < |p.rows| && p.rows[j] == r;
      var row := sheet[j + 1];
      var a := FindIndex(sheet[0], IsPreviewAddress);
      var w := FindIndex(sheet[0], IsPreviewWoid);
      if 0 <= a < |row| { TrimIdempotent(row[a]); }
      if 0 <= w < |row| { TrimIdempotent(row[w]); }
    }
  }

  // ---------------------------------------------------------------------------------------------
  // Upload

  datatype Assignment = Assignment(address: string, workOrderId: string)

  /** `row[index]?.toString().trim()`: `undefined` stays `undefined`. */
  function TrimmedCell(row: Row, index: int): (r: Option<string>)
    ensures r.Some? <==> 0 <= index < |row|
    ensures r.Some? ==> r.value == Trim(row[index])
  {
    match Cell(row, index)
    case None => None
    case Some(v) => Some(Trim(v))
  }

  /** The assignment one data row yields: both trimmed cells present and non-empty. */
  function RowAssignment(row: Row, addressIndex: int, woidIndex: int): (r: Option<Assignment>)
    ensures r.Some? <==> Truthy(TrimmedCell(row, addressIndex)) && Truthy(TrimmedCell(row, woidIndex))
    ensures r.Some? ==> r.value == Assignment(TrimmedCell(row, addressIndex).value, TrimmedCell(row, woidIndex).value)
  {
    var address := TrimmedCell(row, addressIndex);
    var woid := TrimmedCell(row, woidIndex);
    if Truthy(address) && Truthy(woid) then Some(Assignment(address.value, woid.value)) else None
  }

  /** The assignments of a run of data rows, in row order. */
  function Assignments(rows: seq<Row>, addressIndex: int, woidIndex: int): seq<Assignment> {
    if rows == [] then []
    else
      var init := Assignments(rows[..|rows| - 1], addressIndex, woidIndex);
      match RowAssignment(rows[|rows| - 1], addressIndex, woidIndex)
      case None => init
      case Some(a) => init + [a]
  }

  /** The row loop of `handleUpload`: one assignment per data row (after the header) that yields one. */
  method ExtractAssignments(sheet: Sheet, addressIndex: int, woidIndex: int) returns (assignments: seq<Assignment>)
    requires |sheet| >= 1
    ensures assignments == Assignments(sheet[1..], addressIndex, woidIndex)
  {
    assignments := [];
    var i := 1;
    while i < |sheet|
      invariant 1 <= i <= |sheet|
      invariant assignments == Assignments(sheet[1..i], addressIndex, woidIndex)
    {
      assert sheet[1..i + 1][..i - 1] == sheet[1..i];
      var row := sheet[i];
      var address := TrimmedCell(row, addressIndex);
      var woid := TrimmedCell(row, woidIndex);
      if Truthy(address) && Truthy(woid) {
        assignments := assignments + [Assignment(address.value, woid.value)];
      }
      i := i + 1;
    }
    assert sheet[1..i] == sheet[1..];
  }

  /** Every assignment comes from some row, and there are no more assignments than rows. */
  lemma {:induction false} AssignmentsSound(rows: seq<Row>, addressIndex: int, woidIndex: int)
    ensures |Assignments(rows, addressIndex, woidIndex)| <= |rows|
    ensures forall a | a in Assignments(rows, addressIndex, woidIndex) ::
              exists j :: 0 <= j < |rows| && RowAssignment(rows[j], addressIndex, woidIndex) == Some(a)
  {
    if rows != [] {
      var init := rows[..|rows| - 1];
      AssignmentsSound(init, addressIndex, woidIndex);
      forall a | a in Assignments(rows, addressIndex, woidIndex)
        ensures exists j :: 0 <= j < |rows| && RowAssignment(rows[j], addressIndex, woidIndex) == Some(a)
      {
        if a in Assignments(init, addressIndex, woidIndex) {
          var j :| 0 <= j < |init| && RowAssignment(init[j], addressIndex, woidIndex) == Some(a);
          assert rows[j] == init[j];
        } else {
          assert RowAssignment(rows[|rows| - 1], addressIndex, woidIndex) == Some(a);
        }
      }
    }
  }

  /** The assignment of a row has non-empty fields with no surrounding whitespace. */
  lemma RowAssignmentTrimmed(row: Row, addressIndex: int, woidIndex: int)
    requires RowAssignment(row, addressIndex, woidIndex).Some?
    ensures var a := RowAssignment(row, addressIndex, woidIndex).value;
            a.address != "" && a.workOrderId != ""
            && Trim(a.address) == a.address && Trim(a.workOrderId) == a.workOrderId
  {
    TrimIdempotent(row[addressIndex]);
    TrimIdempotent(row[woidIndex]);
  }

  /** Every assignment sent has a non-empty address and work order, both already trimmed. */
  lemma AssignmentsTrimmed(rows: seq<Row>, addressIndex: int, woidIndex: int)
    ensures forall a | a in Assignments(rows, addressIndex, woidIndex) ::
              a.address != "" && a.workOrderId != ""
              && Trim(a.address) == a.address && Trim(a.workOrderId) == a.workOrderId
  {
    AssignmentsSound(rows, addressIndex, woidIndex);
    forall a | a in Assignments(rows, addressIndex, woidIndex)
      ensures a.address != "" && a.workOrderId != ""
              && Trim(a.address) == a.address && Trim(a.workOrderId) == a.workOrderId
    {
      var j :| 0 <= j < |rows| && RowAssignment(rows[j], addressIndex, woidIndex) == Some(a);
      RowAssignmentTrimmed(rows[j], addressIndex, woidIndex);
    }
  }

  /** Every row that yields an assignment contributes it. */
  lemma {:induction false} AssignmentsComplete(rows: seq<Row>, addressIndex: int, woidIndex: int)
    ensures forall j | 0 <= j < |rows| && RowAssignment(rows[j], addressIndex, woidIndex).Some? ::
              RowAssignment(rows[j], addressIndex, woidIndex).value in Assignments(rows, addressIndex, woidIndex)
  {
    if rows != [] {
      var init := rows[..|rows| - 1];
      AssignmentsComplete(init, addressIndex, woidIndex);
      forall j | 0 <= j < |rows| - 1 ensures rows[j] == init[j] { }
    }
  }

  /** No assignment at all exactly when no data row yields one. */
  lemma {:induction false} AssignmentsEmptyIff(rows: seq<Row>, addressIndex: int, woidIndex: int)
    ensures Assignments(rows, addressIndex, woidIndex) == [] <==>
              forall j | 0 <= j < |rows| :: RowAssignment(rows[j], addressIndex, woidIndex).None?
  {
    var r := Assignments(rows, addressIndex, woidIndex);
    AssignmentsSound(rows, addressIndex, woidIndex);
    AssignmentsComplete(rows, addressIndex, woidIndex);
    if r != [] {
      assert r[0] in r;
    }
  }

  /** `AssignmentsEmptyIff` for the data rows of a sheet, indexed as in the sheet. */
  lemma DataRowsEmptyIff(sheet: Sheet, addressIndex: int, woidIndex: int)
    requires |sheet| >= 1
    ensures Assignments(sheet[1..], addressIndex, woidIndex) == [] <==>
              forall j | 1 <= j < |sheet| :: RowAssignment(sheet[j], addressIndex, woidIndex).None?
  {
    AssignmentsEmptyIff(sheet[1..], addressIndex, woidIndex);
    assert forall j | 1 <= j < |sheet| :: sheet[1..][j - 1] == sheet[j];
  }

  datatype UploadOutcome =
    | MissingSelection
    | TooFewRows
    | MissingColumns
    | NoValidRows
    | BulkInsert(assignments: seq<Assignment>, projectId: string, completingTeamId: string)

  /**
   * `handleUpload` up to the mutation call: it needs a file, a project and a completing team, a
   * header row and at least one data row, both columns, and at least one valid row; then it sends
   * the assignments of all data rows with the selected project and team.
   */
  method HandleUpload(hasFile: bool, projectId: Option<string>, completingTeamId: Option<string>, sheet: Sheet)
    returns (o: UploadOutcome)
    ensures o == MissingSelection <==> !(hasFile && Truthy(projectId) && Truthy(completingTeamId))
    ensures o == TooFewRows <==> hasFile && Truthy(projectId) && Truthy(completingTeamId) && |sheet| < 2
    ensures o == MissingColumns <==>
              hasFile && Truthy(projectId) && Truthy(completingTeamId) && |sheet| >= 2
              && (FindIndex(sheet[0], IsUploadAddress) == -1 || FindIndex(sheet[0], IsUploadWoid) == -1)
    ensures o == NoValidRows <==>
              hasFile && Truthy(projectId) && Truthy(completingTeamId) && |sheet| >= 2
              && FindIndex(sheet[0], IsUploadAddress) != -1 && FindIndex(sheet[0], IsUploadWoid) != -1
              && forall j | 1 <= j < |sheet| ::
                   RowAssignment(sheet[j], FindIndex(sheet[0], IsUploadAddress), FindIndex(sheet[0], IsUploadWoid)).None?
    ensures o.BulkInsert? ==>
              && projectId == Some(o.projectId) && completingTeamId == Some(o.completingTeamId)
              && o.assignments == Assignments(sheet[1..], FindIndex(sheet[0], IsUploadAddress), FindIndex(sheet[0], IsUploadWoid))
              && o.assignments != []
  {
    if !hasFile || !Truthy(projectId) || !Truthy(completingTeamId) {
      return MissingSelection;
    }
    if |sheet| < 2 {
      return TooFewRows;
    }
    var headers := sheet[0];
    var addressIndex := FindIndex(headers, IsUploadAddress);
    var woidIndex := FindIndex(headers, IsUploadWoid);
    if addressIndex == -1 || woidIndex == -1 {
      return MissingColumns;
    }
    var assignments := ExtractAssignments(sheet, addressIndex, woidIndex);
    DataRowsEmptyIff(sheet, addressIndex, woidIndex);
    if |assignments| == 0 {
      return NoValidRows;
    }
    return BulkInsert(assignments, projectId.value, completingTeamId.value);
  }
}
