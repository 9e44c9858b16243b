/**
 * The worksheet that stores every submission, and the operations of app.py that
 * write to it: the header check, appending a submission and deleting one.
 *
 * The store is one flat table. Row 1 holds the headers; every later row is one
 * (submission, integration) pair `[submission_id, csm_name, company_name,
 * integration_name, created_at]`, so a submission spans one row per integration.
 */
module Sheet {
  import opened Text
  import opened Collections

  /** One sheet row, as the list of its cell texts. */
  type Cells = seq<string>

  /** The five columns of the store, in sheet order. */
  const SheetHeaders: Cells := ["submission_id", "csm_name", "company_name", "integration_name", "created_at"]

  datatype Option<T> = None | Some(value: T)

  datatype SheetError =
    | HeaderMismatch(found: Cells)  // row 1 does not start with the five headers; `found` is row 1 as stored
    | MissingIdColumn               // no header cell reads "submission_id"

  datatype Outcome = Done | Failed(error: SheetError)

  /** One data row, as the read side sees it once every cell is a string. */
  datatype Row = Row(submissionId: string, csmName: string, companyName: string, integrationName: string, createdAt: string)

  /** The worksheet: its cells, row 1 first, and the three calls app.py makes to change them. */
  class Worksheet {
    var values: seq<Cells>

    constructor (initial: seq<Cells>)
      ensures values == initial
    {
      values := initial;
    }

    /** `append_rows`: the rows go after the last row, in the order given. */
    method AppendRows(rows: seq<Cells>)
      modifies this
      ensures values == old(values) + rows
    {
      values := values + rows;
    }

    /** `delete_rows(index)`: removes the row at 1-based sheet position `index`; the rows below move up. */
    method DeleteRows(index: int)
      requires 1 <= index <= |values|
      modifies this
      ensures values == old(values)[..index - 1] + old(values)[index..]
    {
      values := values[..index - 1] + values[index..];
    }

    /** `update("A1:…", [cells])`: overwrites the leading cells of row 1, creating row 1 on an empty sheet. */
    method UpdateFirstRow(cells: Cells)
      modifies this
      ensures old(values) == [] ==> values == [cells]
      ensures old(values) != [] ==> values == [Overwrite(old(values)[0], cells)] + old(values)[1..]
    {
      if values == [] {
        values := [cells];
      } else {
        values := [Overwrite(values[0], cells)] + values[1..];
      }
    }
  }

  /** `row` with its first `|cells|` cells replaced by `cells`. */
  function Overwrite(row: Cells, cells: Cells): Cells
  {
    cells + if |row| > |cells| then row[|cells|..] else []
  }

  // ---------------------------------------------------------------------------
  // ensure_sheet_header
  // ---------------------------------------------------------------------------

  /** Row 1 as the header check reads it: every cell stripped and lower-cased. */
  function HeaderKeys(row: Cells): (keys: Cells)
    ensures |keys| == |row|
    ensures forall i :: 0 <= i < |row| ==> keys[i] == Key(row[i])
  {
    seq(|row|, i requires 0 <= i < |row| => Key(row[i]))
  }

  /** The header test of ensure_sheet_header: the first five normalized cells are the five headers. */
  predicate HeaderMatches(row: Cells)
  {
    var header := HeaderKeys(row);
    header[..if |header| < |SheetHeaders| then |header| else |SheetHeaders|] == SheetHeaders
  }

  /** The header test accepts a row exactly when it has at least five cells and the first five read as the headers. */
  lemma HeaderMatchesIff(row: Cells)
    ensures HeaderMatches(row) <==>
      |row| >= |SheetHeaders| && forall i :: 0 <= i < |SheetHeaders| ==> Key(row[i]) == SheetHeaders[i]
  {
    var header := HeaderKeys(row);
    if |row| >= |SheetHeaders| && forall i :: 0 <= i < |SheetHeaders| ==> Key(row[i]) == SheetHeaders[i] {
      assert header[..|SheetHeaders|] == SheetHeaders;
    }
  }

  /** Each of the five headers is written in lower-case letters and `_`, so it is its own key. */
  lemma PlainHeader(h: string)
    requires h in SheetHeaders
    ensures Key(h) == h
  {
    assert forall i :: 0 <= i < |h| ==> 'a' <= h[i] <= 'z' || h[i] == '_';
    assert h[0] in "cinsu" && h[|h| - 1] in "edt";
    KeyOfPlain(h);
  }

  /** The header row ensure_sheet_header writes passes its own test. */
  lemma SheetHeadersMatch()
    ensures HeaderMatches(SheetHeaders)
  {
    forall i | 0 <= i < |SheetHeaders| ensures Key(SheetHeaders[i]) == SheetHeaders[i] {
      PlainHeader(SheetHeaders[i]);
    }
    HeaderMatchesIff(SheetHeaders);
  }

  /**
   * ensure_sheet_header: an empty sheet gets the five headers as row 1; otherwise
   * row 1 must begin with them (after strip and lower-case) or the call fails and
   * changes nothing.
   */
  method EnsureSheetHeader(ws: Worksheet) returns (r: Outcome)
    modifies ws
    ensures old(ws.values) == [] ==> r == Done && ws.values == [SheetHeaders]
    ensures old(ws.values) != [] ==> ws.values == old(ws.values)
    ensures old(ws.values) != [] ==>
      r == if HeaderMatches(old(ws.values)[0]) then Done else Failed(HeaderMismatch(old(ws.values)[0]))
    ensures r == Done ==> ws.values != [] && HeaderMatches(ws.values[0])
  {
    var values := ws.values;
    if values == [] {
      ws.UpdateFirstRow(SheetHeaders);
      SheetHeadersMatch();
      return Done;
    }
    if !HeaderMatches(values[0]) {
      return Failed(HeaderMismatch(values[0]));
    }
    return Done;
  }

  // ---------------------------------------------------------------------------
  // Reading rows
  // ---------------------------------------------------------------------------

  /** Cell `i` of a row; cells past the end of a short row read as "". */
  function Cell(cells: Cells, i: nat): string
  {
    if i < |cells| then cells[i] else ""
  }

  function ToRow(cells: Cells): Row
  {
    Row(Cell(cells, 0), Cell(cells, 1), Cell(cells, 2), Cell(cells, 3), Cell(cells, 4))
  }

  /** The cells `append_submission` writes for one row, in sheet column order. */
  function RowCells(r: Row): (cells: Cells)
    ensures |cells| == |SheetHeaders|
    ensures ToRow(cells) == r
  {
    [r.submissionId, r.csmName, r.companyName, r.integrationName, r.createdAt]
  }

  /** The data rows of the sheet (every row after the header row) as records. */
  function Records(values: seq<Cells>): seq<Row>
  {
    if values == [] then [] else seq(|values| - 1, i requires 0 <= i < |values| - 1 => ToRow(values[i + 1]))
  }

  // ---------------------------------------------------------------------------
  // append_submission
  // ---------------------------------------------------------------------------

  /** The records of a new submission: one per integration, sharing id, names and time. */
  function SubmissionRows(id: string, csm: string, company: string, names: seq<string>, createdAt: string): seq<Row>
  {
    seq(|names|, i requires 0 <= i < |names| => Row(id, Normalize(csm), Normalize(company), names[i], createdAt))
  }

  function SubmissionCells(id: string, csm: string, company: string, names: seq<string>, createdAt: string): seq<Cells>
  {
    var rows := SubmissionRows(id, csm, company, names, createdAt);
    seq(|rows|, i requires 0 <= i < |rows| => RowCells(rows[i]))
  }

  /**
   * append_submission. The fresh id (uuid4) and the timestamp (now, UTC) are
   * parameters; the id is one no row of the sheet holds yet.
   */
  method AppendSubmission(ws: Worksheet, csm: string, company: string, names: seq<string>,
                          id: string, createdAt: string) returns (sid: string)
    requires forall r :: r in Records(ws.values) ==> r.submissionId != id
    modifies ws
    ensures sid == id
    ensures ws.values == old(ws.values) + SubmissionCells(id, csm, company, names, createdAt)
    ensures old(ws.values) != [] ==>
      Records(ws.values) == old(Records(ws.values)) + SubmissionRows(id, csm, company, names, createdAt)
  {
    var rows := SubmissionCells(id, csm, company, names, createdAt);
    ghost var before := ws.values;
    ws.AppendRows(rows);
    if before != [] {
      AppendedRecords(before, id, csm, company, names, createdAt);
    }
    return id;
  }

  /**
   * Appending a submission to a sheet with a header row adds exactly the
   * submission's records, in input order, after the existing records, which stay
   * as they were.
   */
  lemma AppendedRecords(values: seq<Cells>, id: string, csm: string, company: string,
                        names: seq<string>, createdAt: string)
    requires values != []
    ensures Records(values + SubmissionCells(id, csm, company, names, createdAt)) ==
            Records(values) + SubmissionRows(id, csm, company, names, createdAt)
  {
    var cells := SubmissionCells(id, csm, company, names, createdAt);
    var added := SubmissionRows(id, csm, company, names, createdAt);
    var all := values + cells;
    var old_ := Records(values);
    assert |Records(all)| == |old_ + added|;
    forall i | 0 <= i < |Records(all)| ensures Records(all)[i] == (old_ + added)[i] {
      if i < |old_| {
        assert all[i + 1] == values[i + 1];
      } else {
        assert all[i + 1] == cells[i + 1 - |values|];
        assert ToRow(RowCells(added[i - |old_|])) == added[i - |old_|];
      }
    }
  }

  // ---------------------------------------------------------------------------
  // delete_submission
  // ---------------------------------------------------------------------------

  /** The row holds `id` in column `col`: delete_submission's match test (exact, untrimmed). */
  predicate Hit(row: Cells, col: nat, id: string)
  {
    |row| > col && row[col] == id
  }

  /** The rows that do not hold `id` in column `col`, in their original order. */
  function KeepRows(rows: seq<Cells>, col: nat, id: string): seq<Cells>
  {
    Filter(rows, Survives(col, id))
  }

  /** The row survives deleting `id`: it does not hold `id` in column `col`. */
  function Survives(col: nat, id: string): Cells -> bool
  {
    (row: Cells) => !Hit(row, col, id)
  }

  /** Python's `list.index`: the position of the first occurrence of `name`, if any. */
  function IndexOf(names: seq<string>, name: string): (r: Option<nat>)
    ensures r.Some? ==> r.value < |names| && names[r.value] == name
    ensures r.Some? ==> forall j :: 0 <= j < r.value ==> names[j] != name
    ensures r.None? ==> forall j :: 0 <= j < |names| ==> names[j] != name
  {
    if names == [] then None
    else if names[0] == name then Some(0)
    else
      match IndexOf(names[1..], name)
      case None => None
      case Some(i) => Some(i + 1)
  }

  /** The column of the first header cell that reads "submission_id" once stripped and lower-cased. */
  function IdColumn(header: Cells): Option<nat>
  {
    IndexOf(HeaderKeys(header), "submission_id")
  }

  /**
   * The sheet delete_submission leaves behind: unchanged when it is empty or has
   * no submission_id column, otherwise row 1 followed by the data rows that do
   * not hold `id` in that column.
   */
  function AfterDelete(values: seq<Cells>, id: string): seq<Cells>
  {
    if values == [] then values
    else
      match IdColumn(values[0])
      case None => values
      case Some(col) => [values[0]] + KeepRows(values[1..], col, id)
  }

  /**
   * delete_submission: collects the sheet numbers (data starts at row 2) of the
   * rows whose submission_id cell equals `id`, then deletes them from the bottom
   * up, so that the numbers still to be deleted keep pointing at the same rows.
   */
  method DeleteSubmission(ws: Worksheet, id: string) returns (r: Outcome)
    modifies ws
    ensures ws.values == AfterDelete(old(ws.values), id)
    ensures r == if old(ws.values) != [] && IdColumn(old(ws.values)[0]).None?
                 then Failed(MissingIdColumn) else Done
  {
    var values := ws.values;
    if values == [] {
      return Done;
    }
    var found := IdColumn(values[0]);
    if found.None? {
      return Failed(MissingIdColumn);
    }
    var col := found.value;

    var rowsToDelete := CollectHits(values, col, id);
    DeleteBottomUp(ws, col, id, rowsToDelete);
    PendingEnd(values, col, id);
    return Done;
  }

  /** delete_submission's first pass: the sheet numbers of the data rows whose cell in column `col` is `id`. */
  method CollectHits(values: seq<Cells>, col: nat, id: string) returns (rowsToDelete: seq<nat>)
    requires 1 <= |values|
    ensures rowsToDelete == HitRows(values, col, id, |values|)
  {
    rowsToDelete := [];
    var i := 1;
    while i < |values|
      invariant 1 <= i <= |values|
      invariant rowsToDelete == HitRows(values, col, id, i)
    {
      if Hit(values[i], col, id) {
        rowsToDelete := rowsToDelete + [i + 1];
      }
      i := i + 1;
    }
  }

  /**
   * delete_submission's second pass: deletes the collected sheet rows from the
   * bottom up, which leaves row 1 and the data rows that do not hold `id`.
   */
  method DeleteBottomUp(ws: Worksheet, col: nat, id: string, rowsToDelete: seq<nat>)
    requires 1 <= |ws.values|
    requires rowsToDelete == HitRows(ws.values, col, id, |ws.values|)
    modifies ws
    ensures ws.values == Pending(old(ws.values), col, id, 0)
  {
    ghost var values := ws.values;
    var k := |rowsToDelete|;
    PendingStart(values, col, id);
    while k > 0
      invariant 0 <= k <= |rowsToDelete|
      invariant ws.values == Pending(values, col, id, k)
    {
      PendingStep(values, col, id, k);
      ws.DeleteRows(rowsToDelete[k - 1]);
      k := k - 1;
    }
  }

  /** Sheet numbers of the data rows among the first `n` sheet rows that hold `id` in column `col`. */
  function HitRows(values: seq<Cells>, col: nat, id: string, n: nat): seq<nat>
    requires 1 <= n <= |values|
  {
    if n == 1 then [] else HitRows(values, col, id, n - 1) + (if Hit(values[n - 1], col, id) then [n] else [])
  }

  /** The collected sheet numbers increase, name data rows that hold the id, and name every such row. */
  lemma {:induction false} HitRowsFacts(values: seq<Cells>, col: nat, id: string, n: nat)
    requires 1 <= n <= |values|
    ensures forall a, b :: 0 <= a < b < |HitRows(values, col, id, n)| ==>
      HitRows(values, col, id, n)[a] < HitRows(values, col, id, n)[b]
    ensures forall a :: 0 <= a < |HitRows(values, col, id, n)| ==> 2 <= HitRows(values, col, id, n)[a] <= n
    ensures forall a :: 0 <= a < |HitRows(values, col, id, n)| ==>
      Hit(values[HitRows(values, col, id, n)[a] - 1], col, id)
    ensures forall q :: 1 <= q < n && Hit(values[q], col, id) ==> q + 1 in HitRows(values, col, id, n)
  {
    if n > 1 {
      HitRowsFacts(values, col, id, n - 1);
      var before := HitRows(values, col, id, n - 1);
      var rows := HitRows(values, col, id, n);
      assert rows == before + (if Hit(values[n - 1], col, id) then [n] else []);
      forall a | 0 <= a < |rows| ensures 2 <= rows[a] <= n && Hit(values[rows[a] - 1], col, id) {
        if a < |before| {
          assert rows[a] == before[a];
        } else {
          assert rows[a] == n;
        }
      }
    }
  }

  /**
   * Between two consecutive collected rows (and below the last one, and between
   * the header and the first one) no data row holds the id.
   */
  lemma HitRowsGap(values: seq<Cells>, col: nat, id: string, k: nat)
    requires 1 <= |values|
    requires k <= |HitRows(values, col, id, |values|)|
    ensures forall q ::
      (0 <= q < |values| && (if k == 0 then 1 else HitRows(values, col, id, |values|)[k - 1]) <= q &&
       (k < |HitRows(values, col, id, |values|)| ==> q < HitRows(values, col, id, |values|)[k] as int - 1))
      ==> !Hit(values[q], col, id)
  {
    var rows := HitRows(values, col, id, |values|);
    HitRowsFacts(values, col, id, |values|);
    var lo := if k == 0 then 1 else rows[k - 1];
    forall q | 0 <= q < |values| && lo <= q && (k < |rows| ==> q < rows[k] as int - 1) ensures !Hit(values[q], col, id) {
      forall j | 0 <= j < |rows| ensures rows[j] != q + 1 {
        if j + 1 < k {
          assert rows[j] < rows[k - 1];
        } else if k < j {
          assert rows[k] < rows[j];
        }
      }
      assert q + 1 !in rows;
    }
  }

  /**
   * Where the bottom-up deletion stands once only the first `k` collected rows
   * are left to delete: every data row from sheet row `Bound(k) + 1` on has been
   * filtered, the rows above it are untouched.
   */
  function Bound(values: seq<Cells>, col: nat, id: string, k: nat): (b: nat)
    requires 1 <= |values|
    requires k <= |HitRows(values, col, id, |values|)|
    ensures 1 <= b <= |values|
  {
    var rows := HitRows(values, col, id, |values|);
    HitRowsFacts(values, col, id, |values|);
    if k == |rows| then |values| else rows[k] - 1
  }

  function Pending(values: seq<Cells>, col: nat, id: string, k: nat): seq<Cells>
    requires 1 <= |values|
    requires k <= |HitRows(values, col, id, |values|)|
  {
    var b := Bound(values, col, id, k);
    values[..b] + KeepRows(values[b..], col, id)
  }

  /** Before any deletion the sheet is as it was. */
  lemma PendingStart(values: seq<Cells>, col: nat, id: string)
    requires 1 <= |values|
    ensures Pending(values, col, id, |HitRows(values, col, id, |values|)|) == values
  {
    assert values[|values|..] == [];
    assert values[..|values|] == values;
  }

  /** Deleting sheet row `rows[k - 1]` moves the deletion one collected row further up. */
  lemma PendingStep(values: seq<Cells>, col: nat, id: string, k: nat)
    requires 1 <= |values|
    requires 0 < k <= |HitRows(values, col, id, |values|)|
    ensures var w, p := Pending(values, col, id, k), HitRows(values, col, id, |values|)[k - 1];
      1 <= p <= |w| && w[..p - 1] + w[p..] == Pending(values, col, id, k - 1)
  {
    var rows := HitRows(values, col, id, |values|);
    HitRowsFacts(values, col, id, |values|);
    var p, b := rows[k - 1] - 1, Bound(values, col, id, k);
    assert Bound(values, col, id, k - 1) == p;
    assert Hit(values[p], col, id);
    assert k < |rows| ==> rows[k - 1] < rows[k];
    assert p < b;
    HitRowsGap(values, col, id, k);
    FilterDropStep(values, Survives(col, id), p, b);
  }

  /** Once every collected row is deleted, the sheet is what delete_submission promises. */
  lemma PendingEnd(values: seq<Cells>, col: nat, id: string)
    requires 1 <= |values| && IdColumn(values[0]) == Some(col)
    ensures Pending(values, col, id, 0) == AfterDelete(values, id)
  {
    HitRowsGap(values, col, id, 0);
    FilterFrom(values, Survives(col, id), 1, Bound(values, col, id, 0));
    assert values[..1] == [values[0]];
  }

  /** A second delete of the same id changes nothing. */
  lemma DeleteIdempotent(values: seq<Cells>, id: string)
    ensures AfterDelete(AfterDelete(values, id), id) == AfterDelete(values, id)
  {
    if values != [] && IdColumn(values[0]).Some? {
      var col := IdColumn(values[0]).value;
      var kept := KeepRows(values[1..], col, id);
      var after := [values[0]] + kept;
      assert AfterDelete(values, id) == after;
      assert after[0] == values[0] && after[1..] == kept;
      FilterMembers(values[1..], Survives(col, id));
      forall i | 0 <= i < |kept| ensures Survives(col, id)(kept[i]) {
        assert kept[i] in kept;
      }
      FilterAll(kept, Survives(col, id));
    }
  }

  /**
   * Deleting an id keeps row 1 and, among the data rows, exactly the ones that
   * do not hold it, each as often as before.
   */
  lemma DeleteKeepsOthers(values: seq<Cells>, id: string, col: nat)
    requires values != [] && IdColumn(values[0]) == Some(col)
    ensures AfterDelete(values, id) != [] && AfterDelete(values, id)[0] == values[0]
    ensures forall x :: multiset(AfterDelete(values, id)[1..])[x] ==
                        if Hit(x, col, id) then 0 else multiset(values[1..])[x]
  {
    assert AfterDelete(values, id)[1..] == KeepRows(values[1..], col, id);
    FilterCounts(values[1..], Survives(col, id));
  }

  /** With an id column, the sheet after the delete is row 1 followed by the kept data rows. */
  lemma AfterDeleteWith(values: seq<Cells>, id: string, col: nat)
    requires values != [] && IdColumn(values[0]) == Some(col)
    ensures AfterDelete(values, id) == [values[0]] + KeepRows(values[1..], col, id)
  {
  }

  /** When no data row holds `id` in column `col`, every data row is kept. */
  lemma KeepAllDataRows(values: seq<Cells>, col: nat, id: string)
    requires values != []
    requires forall i :: 1 <= i < |values| ==> !Hit(values[i], col, id)
    ensures KeepRows(values[1..], col, id) == values[1..]
  {
    var rest := values[1..];
    forall i | 0 <= i < |rest| ensures Survives(col, id)(rest[i]) {
      assert rest[i] == values[i + 1];
    }
    FilterAll(rest, Survives(col, id));
  }

  /** Deleting an id that no data row holds changes nothing. */
  lemma DeleteAbsentUnchanged(values: seq<Cells>, id: string, col: nat)
    requires values != [] && IdColumn(values[0]) == Some(col)
    requires forall i :: 1 <= i < |values| ==> !Hit(values[i], col, id)
    ensures AfterDelete(values, id) == values
  {
    AfterDeleteWith(values, id, col);
    KeepAllDataRows(values, col, id);
    assert values == [values[0]] + values[1..];
  }

  /** Under the standard header the submission_id column is the first one. */
  lemma StandardIdColumn(row: Cells)
    requires HeaderMatches(row)
    ensures IdColumn(row) == Some(0)
  {
    HeaderMatchesIff(row);
    assert HeaderKeys(row)[0] == "submission_id";
  }

  /** Among rows that each have a first cell, the rows kept by a delete on column 0 have a first cell other than `id`. */
  lemma KeptRowsMiss(rows: seq<Cells>, id: string)
    requires forall x :: x in rows ==> x != []
    ensures forall x :: x in KeepRows(rows, 0, id) ==> Cell(x, 0) != id
  {
    FilterMembers(rows, Survives(0, id));
  }

  /** When no data row has `id` as its first cell, no record carries the id `id`. */
  lemma NoRecordWithId(values: seq<Cells>, id: string)
    requires values != []
    requires forall x :: x in values[1..] ==> Cell(x, 0) != id
    ensures forall r :: r in Records(values) ==> r.submissionId != id
  {
    forall r | r in Records(values) ensures r.submissionId != id {
      var i :| 0 <= i < |Records(values)| && Records(values)[i] == r;
      assert values[1..][i] == values[i + 1];
    }
  }

  /**
   * Under the standard header, no record of the deleted id is left for the read
   * side. Every data row has at least one cell, as gspread pads the rows it
   * returns to the width of the sheet.
   */
  lemma DeletedIdGone(values: seq<Cells>, id: string)
    requires values != [] && HeaderMatches(values[0])
    requires forall i :: 1 <= i < |values| ==> values[i] != []
    ensures forall r :: r in Records(AfterDelete(values, id)) ==> r.submissionId != id
  {
    StandardIdColumn(values[0]);
    AfterDeleteWith(values, id, 0);
    var rest := values[1..];
    forall x | x in rest ensures x != [] {
      var j :| 0 <= j < |rest| && rest[j] == x;
      assert values[j + 1] == x;
    }
    KeptRowsMiss(rest, id);
    var after := AfterDelete(values, id);
    assert after[1..] == KeepRows(rest, 0, id);
    NoRecordWithId(after, id);
  }
}
