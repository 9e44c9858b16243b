/**
 * The submission form of app.py: the checks a new submission must pass before
 * append_submission writes it, and what they guarantee about the stored records.
 */
module Intake {
  import opened Text
  import opened Sheet
  import opened Queries

  /** Why the form turns a submission away. */
  datatype Rejection =
    | MissingName     // the CSM name or the company name is empty
    | NoIntegrations  // no integration was selected
    | AlreadyExists   // a submission for the same CSM and company is on record

  /**
   * The form's checks as app.py writes them: the names are checked for emptiness
   * before they are stripped, so a name made only of spaces gets through.
   */
  function CheckAsWritten(rows: seq<Row>, csm: string, company: string, selected: seq<string>): Option<Rejection>
  {
    if csm == "" || company == "" then Some(MissingName)
    else if selected == [] then Some(NoIntegrations)
    else if SubmissionExists(rows, csm, company) then Some(AlreadyExists)
    else None
  }

  /** The form's checks with the emptiness test applied to the names as they will be stored. */
  function Check(rows: seq<Row>, csm: string, company: string, selected: seq<string>): Option<Rejection>
  {
    if Normalize(csm) == "" || Normalize(company) == "" then Some(MissingName)
    else if selected == [] then Some(NoIntegrations)
    else if SubmissionExists(rows, csm, company) then Some(AlreadyExists)
    else None
  }

  /**
   * The checks as written accept a CSM name of one space, and the record then
   * stored has an empty CSM name.
   */
  lemma BlankNameGetsThrough()
    ensures CheckAsWritten([], " ", "Acme", ["GitHub"]) == None
    ensures SubmissionRows("id", " ", "Acme", ["GitHub"], "t")[0].csmName == ""
  {
    assert LeadingSpace(" ") == 1;
    assert Normalize(" ") == "";
    assert SubmissionRows("id", " ", "Acme", ["GitHub"], "t")[0] == Row("id", Normalize(" "), Normalize("Acme"), "GitHub", "t");
  }

  /** Every record of a submission that passes the corrected checks has a CSM name and a company name. */
  lemma CheckedRecordsNamed(rows: seq<Row>, csm: string, company: string, selected: seq<string>,
                            id: string, createdAt: string)
    requires Check(rows, csm, company, selected) == None
    ensures |SubmissionRows(id, csm, company, selected, createdAt)| >= 1
    ensures forall r :: r in SubmissionRows(id, csm, company, selected, createdAt) ==>
      r.csmName != "" && r.companyName != ""
  {
  }

  /** A submission passes the corrected checks only when it passes the checks as written. */
  lemma CheckStricter(rows: seq<Row>, csm: string, company: string, selected: seq<string>)
    ensures Check(rows, csm, company, selected) == None ==> CheckAsWritten(rows, csm, company, selected) == None
  {
    if csm == "" {
      assert Normalize(csm) == "";
    }
    if company == "" {
      assert Normalize(company) == "";
    }
  }

  /** Records sharing a (CSM, company) pair, once stripped and lower-cased, belong to one submission. */
  predicate PairsUnique(rows: seq<Row>)
  {
    forall i, j :: 0 <= i < |rows| && 0 <= j < |rows| && SamePair(rows[i], rows[j].csmName, rows[j].companyName) ==>
      rows[i].submissionId == rows[j].submissionId
  }

  /**
   * Records for a pair no record has yet, all under one id, keep one submission
   * per pair.
   */
  lemma PairsUniqueAppend(before: seq<Row>, added: seq<Row>, csm: string, company: string)
    requires PairsUnique(before)
    requires forall r :: r in before ==> !SamePair(r, csm, company)
    requires forall a :: a in added ==> SamePair(a, csm, company)
    requires forall a, b :: a in added && b in added ==> a.submissionId == b.submissionId
    ensures PairsUnique(before + added)
  {
    var after := before + added;
    assert forall k :: 0 <= k < |before| ==> after[k] == before[k];
    assert forall k :: |before| <= k < |after| ==> after[k] in added;
    forall i, j | 0 <= i < |before| <= j < |after|
      ensures !SamePair(after[i], after[j].csmName, after[j].companyName)
      ensures !SamePair(after[j], after[i].csmName, after[i].companyName)
    {
      assert SamePair(after[j], csm, company);
      assert !SamePair(before[i], csm, company);
    }
  }

  /** The records of one submission all carry its id and the (CSM, company) pair it was made for. */
  lemma AddedRowsShare(id: string, csm: string, company: string, selected: seq<string>, createdAt: string)
    ensures forall a :: a in SubmissionRows(id, csm, company, selected, createdAt) ==>
      a.submissionId == id && SamePair(a, csm, company)
  {
    KeyOfNormalized(csm);
    KeyOfNormalized(company);
  }

  /**
   * The form's purpose: appending a submission that passes the checks as
   * written keeps one submission per (CSM, company) pair, and the pair is then
   * on record. By CheckStricter the same holds under the corrected checks.
   */
  lemma AcceptedKeepsPairsUnique(values: seq<Cells>, csm: string, company: string, selected: seq<string>,
                                 id: string, createdAt: string)
    requires values != []
    requires PairsUnique(Records(values))
    requires CheckAsWritten(Records(values), csm, company, selected) == None
    ensures PairsUnique(Records(values + SubmissionCells(id, csm, company, selected, createdAt)))
    ensures SubmissionExists(Records(values + SubmissionCells(id, csm, company, selected, createdAt)), csm, company)
  {
    var before := Records(values);
    var added := SubmissionRows(id, csm, company, selected, createdAt);
    AppendedRecords(values, id, csm, company, selected, createdAt);
    assert !SubmissionExists(before, csm, company);
    assert forall r :: r in before ==> !SamePair(r, csm, company);
    AddedRowsShare(id, csm, company, selected, createdAt);
    PairsUniqueAppend(before, added, csm, company);
    AppendedPairExists(values, id, csm, company, selected, createdAt);
  }

  /**
   * The form's submit step as app.py writes it: check, and append the
   * submission when the checks pass. The fresh id and the time are parameters,
   * as in AppendSubmission.
   */
  method Submit(ws: Worksheet, csm: string, company: string, selected: seq<string>,
                id: string, createdAt: string) returns (r: Option<Rejection>)
    requires forall row :: row in Records(ws.values) ==> row.submissionId != id
    modifies ws
    ensures r == CheckAsWritten(old(Records(ws.values)), csm, company, selected)
    ensures r == None ==> ws.values == old(ws.values) + SubmissionCells(id, csm, company, selected, createdAt)
    ensures r != None ==> ws.values == old(ws.values)
  {
    r := CheckAsWritten(Records(ws.values), csm, company, selected);
    if r == None {
      var _ := AppendSubmission(ws, csm, company, selected, id, createdAt);
    }
  }

  /** The submit step with the corrected checks: a name blank after stripping is turned away. */
  method SubmitCorrected(ws: Worksheet, csm: string, company: string, selected: seq<string>,
                         id: string, createdAt: string) returns (r: Option<Rejection>)
    requires forall row :: row in Records(ws.values) ==> row.submissionId != id
    modifies ws
    ensures r == Check(old(Records(ws.values)), csm, company, selected)
    ensures r == None ==> ws.values == old(ws.values) + SubmissionCells(id, csm, company, selected, createdAt)
    ensures r != None ==> ws.values == old(ws.values)
  {
    r := Check(Records(ws.values), csm, company, selected);
    if r == None {
      var _ := AppendSubmission(ws, csm, company, selected, id, createdAt);
    }
  }
}
