# Integrations leaderboard: the sheet-backed submission store

This project models the data layer of the integrations leaderboard app (`app.py`).
A Customer Success Manager (CSM) records which integrations a customer company has
completed. Each such record is a *submission*. All submissions live in one worksheet:

- row 1 holds the five headers `submission_id, csm_name, company_name, integration_name, created_at`;
- every later row is one (submission, integration) pair, so a submission spans one row per integration.

The model has five modules:

- `Text`: Python's `str.strip()`, `str.lower()` (ASCII letters), ordinal string order, and substring search.
- `Collections`: the sequence operations that the pandas calls stand for. These are filter, first-appearance distinct, a stable insertion sort under a total preorder, sums and counts.
- `Sheet`: the worksheet as a class holding its rows, with the three gspread calls the app makes (`append_rows`, `delete_rows`, `update`). It also has the write operations `ensure_sheet_header`, `append_submission` and `delete_submission`. `delete_submission` keeps its two loops: it collects the matching sheet rows, then deletes them bottom-up.
- `Queries`: the read side. This covers `submission_exists`, `get_submissions` (filter, group by id in order of first appearance, sort newest first), `get_distinct_csms`, and the two leaderboards `get_counts_by_service` and `get_counts_by_csm`.
- `Intake`: the submit rule of the entry form. Names must be present, at least one integration must be chosen, and no submission may exist for the same CSM and company. This rule is what keeps one submission per (CSM, company) pair.

The records the read side works on are `Sheet.Records(values)`: every row after row 1, read positionally, with missing trailing cells read as "".

A reader might expect the final CSM tie-break of the CSM leaderboard to ignore letter case. `app.py:225` sorts `csm_name` in plain ordinal order, and `Queries.RankedAbove` does the same.

## Model

| member | source | states |
|---|---|---|
| Text.Strip | app.py:36-37 | the result has no whitespace at either end and is the middle piece of the input between an all-whitespace prefix and an all-whitespace suffix |
| Text.StripRemovesPadding | app.py:36-37 | stripping a trimmed text surrounded by any whitespace gives exactly that text back |
| Text.StripIdempotent | app.py:36-37 | normalizing an already normalized value changes nothing |
| Text.KeyOfNormalized | app.py:98-104 | the strip-and-lower key of a stored (normalized) name equals the key of the name as typed |
| Text.KeyOfPlain | app.py:46-47 | a trimmed text without capitals is its own key, so the lower-case headers pass their own test |
| Text.LeTotal | app.py:225 | ordinal string order is total |
| Text.LeTransitive | app.py:225 | ordinal string order is transitive |
| Collections.Unique | app.py:170-176 | `unique()` keeps each element once, drops none, and adds none |
| Collections.UniqueOrder | app.py:175 | `unique()` lists the values in the order of their first appearance |
| Collections.SortBy | app.py:178 | sorting under a total preorder gives a sorted permutation of the input |
| Collections.FilterCounts | app.py:137-142 | filtering keeps every passing element as often as it occurs and drops every failing one |
| Sheet.Worksheet.AppendRows | app.py:120 | `append_rows` puts the rows after the last row, in the order given |
| Sheet.Worksheet.DeleteRows | app.py:142 | `delete_rows(i)` removes exactly sheet row `i`; the rows below move up |
| Sheet.Worksheet.UpdateFirstRow | app.py:43 | writing `A1:E1` creates row 1 on an empty sheet, otherwise overwrites its leading cells |
| Sheet.HeaderMatchesIff | app.py:46-47 | the header test passes exactly when row 1 has at least five cells and its first five keys are the five headers |
| Sheet.PlainHeader | app.py:32 | each of the five headers is its own stripped, lower-cased key |
| Sheet.SheetHeadersMatch | app.py:42-44 | the header row written to an empty sheet passes the header test |
| Sheet.EnsureSheetHeader | app.py:40-53 | an empty sheet gets exactly the five headers as row 1; otherwise nothing changes, and the call fails with row 1 when its first five keys are not the headers |
| Sheet.RowCells | app.py:116-119 | the five cells written for a record read back as that record |
| Sheet.AppendSubmission | app.py:108-121 | returns the fresh id; the sheet gains exactly the submission's rows at the end; the existing records are unchanged and followed by the new ones |
| Sheet.AppendedRecords | app.py:116-120 | on a sheet with a header row, the records after appending are the old records followed by one record per chosen integration, in input order |
| Sheet.IndexOf | app.py:132 | `list.index` gives the first position holding the name, or reports that no position holds it |
| Sheet.DeleteSubmission | app.py:124-142 | the sheet afterwards is row 1 followed by the data rows whose id cell differs from the id, in order; an empty sheet is left alone; a header without `submission_id` fails and changes nothing |
| Sheet.CollectHits | app.py:136-139 | the first loop collects the sheet numbers of the data rows whose id cell equals the id |
| Sheet.DeleteBottomUp | app.py:141-142 | deleting the collected rows in reverse order leaves exactly the filtered sheet |
| Sheet.HitRowsFacts | app.py:136-139 | the collected sheet numbers increase, are at least 2, each names a matching row, and every matching data row is collected |
| Sheet.HitRowsGap | app.py:141-142 | no data row between two consecutive collected numbers matches, so deleting from the bottom keeps the remaining numbers valid |
| Sheet.PendingStep | app.py:141-142 | deleting the next collected row bottom-up filters one more stretch of the sheet and leaves the rows above untouched |
| Sheet.PendingEnd | app.py:141-142 | once every collected row is deleted, the sheet is row 1 plus the non-matching data rows |
| Sheet.DeleteIdempotent | app.py:124-142 | deleting the same id twice leaves the same sheet as deleting it once |
| Sheet.DeleteKeepsOthers | app.py:137-142 | row 1 stays; each non-matching data row occurs as often as before, and no matching row is left |
| Sheet.KeepAllDataRows | app.py:137-139 | when no data row holds the id, every data row is kept |
| Sheet.DeleteAbsentUnchanged | app.py:137-142 | deleting an id that no data row holds leaves the sheet unchanged |
| Sheet.StandardIdColumn | app.py:132 | under the standard header, the id column is the first column |
| Sheet.DeletedIdGone | app.py:124-142 | under the standard header, with every data row holding at least one cell (gspread pads rows), no record of a deleted id is left for the read side, whatever the id, the empty one included |
| Queries.SubmissionExists | app.py:95-105 | true exactly when some record has the same CSM and company once both are stripped and lower-cased; false on no records |
| Queries.SubmissionExistsIgnoresPadding | app.py:98-99 | the duplicate test gives the same answer for the names as typed and as normalized |
| Queries.AppendedPairExists | app.py:108-121 | after appending a submission with at least one integration, the duplicate test finds its pair |
| Queries.LowerLeOrders | app.py:178 | `key=str.lower` ordering is a total preorder |
| Queries.StrippedNonBlank | app.py:170-176 | the names kept are exactly the non-blank stripped names |
| Queries.CleanNames | app.py:169-178 | each non-blank stripped name appears exactly once, no other name appears, and the list is in case-insensitive order |
| Queries.CleanNamesTrimmed | app.py:170-176 | every listed name is non-blank and has no surrounding whitespace |
| Queries.DistinctCsms | app.py:193-205 | the CSM options are exactly the non-blank stripped CSM names, once each, in case-insensitive order |
| Queries.GroupOfFirst | app.py:179-186 | CSM, company and time come from the first record of the id |
| Queries.GroupOfIntegrations | app.py:168-178 | the integrations listed are exactly the non-blank stripped names of the id's records, once each, in case-insensitive order |
| Queries.GroupNames | app.py:168-170 | the names gathered for an id are exactly the integration names of the records with that id |
| Queries.GroupsOrder | app.py:168 | the submissions come in the order in which the first record of each id appears (`groupby(sort=False)`) |
| Queries.GroupsFacts | app.py:168 | the groups have distinct ids, cover exactly the ids present, and each is the fold of its id |
| Queries.NewerOrSameOrders | app.py:189 | newest-first on `created_at` is a total preorder |
| Queries.GetSubmissions | app.py:145-190 | the loop over the groups followed by the sort returns exactly the specified submissions table |
| Queries.SubmissionsShape | app.py:167-189 | the table is newest first, lists each id once, and each entry is the fold of the passing records of its id |
| Queries.SubmissionsCover | app.py:152-165 | an id has an entry exactly when one of its records passes all three filters, so an empty store or an empty filtered result gives an empty table |
| Queries.SubmissionsSound | app.py:155-162 | every entry's id has a record that passes the filters |
| Queries.SubmissionsComplete | app.py:164-168 | every record that passes the filters has its id in the table |
| Queries.SubmissionsWithinFilter | app.py:161-162 | with an integration filter, every integration listed is one of the chosen ones, stripped |
| Queries.MoreUsedOrders | app.py:211 | count-descending order is a total preorder |
| Queries.ServiceTallyFacts | app.py:211 | each count is at least 1 and equals the name's number of records; each name occurs, once; the counts add up to the number of records |
| Queries.CountsByServiceContents | app.py:208-212 | the service leaderboard lists every integration name that occurs, with its record count (at least 1), and no other name |
| Queries.CountsByServiceRanked | app.py:211-212 | the service leaderboard names each integration once, is ordered by count descending, and its counts add up to the number of records |
| Queries.RankedAboveOrders | app.py:225 | integrations descending, then companies descending, then CSM name ascending is a total preorder |
| Queries.CsmTallyFacts | app.py:218-223 | both counts are at least 1 and correct for the name; each name occurs, once; the record counts add up to the number of records |
| Queries.CountsByCsmContents | app.py:215-227 | the CSM leaderboard lists every CSM that has records, with its distinct-company count and record count, and no CSM without records |
| Queries.CountsByCsmRanked | app.py:218-227 | the CSM leaderboard names each CSM once, is ranked by integrations, companies and name, and its record counts add up to the number of records |
| Intake.BlankNameGetsThrough | app.py:319-329 | the checks as written accept a CSM name of one space, and the stored record then has an empty CSM name |
| Intake.CheckedRecordsNamed | app.py:319-320 | every record of a submission that passes the corrected checks has a non-empty CSM name and company name |
| Intake.CheckStricter | app.py:319 | the corrected checks accept only what the checks as written accept |
| Intake.PairsUniqueAppend | app.py:323-328 | appending records for a pair that no record has yet, all under one id, keeps one submission per pair |
| Intake.AddedRowsShare | app.py:114-119 | the records of one submission share its id and the pair it was made for |
| Intake.AcceptedKeepsPairsUnique | app.py:319-329 | appending a submission that passes the checks as written keeps one submission per (CSM, company) pair, and the pair is then on record |
| Intake.Submit | app.py:318-329 | the submit step returns the verdict of the checks as written; it appends the submission exactly when they pass, and otherwise leaves the sheet unchanged |
| Intake.SubmitCorrected | app.py:318-329 | the submit step with the corrected checks: the same append-or-unchanged behaviour, driven by the verdict of the corrected checks |

## Left out

- `get_worksheet` (service-account authorization, secrets lookup, the gspread network calls, caching): the `Sheet.Worksheet` class stands in for the worksheet these produce.
- The Streamlit page (layout, charts, session state, `st.rerun`), apart from the submit rule, which is `Intake`.
- `load_df`: `get_all_records` keys the columns by the header text, and gspread turns numeric-looking cells into numbers before `astype(str)`. The model reads the five columns by position and keeps every cell as text. So a cell such as `007` is not rewritten, and a sheet whose header is in another column order is read positionally.
- Missing values (`None`, `NaN`): every input and cell is a string. The `(s or "")` of `_normalize` and the `dropna()` calls therefore have no counterpart.
- `uuid4()` and `datetime.now()` are parameters of `Sheet.AppendSubmission` and `Intake.Submit`; the fresh id is a precondition.
- Concurrency: the race between the duplicate test and the append is outside a sequential model.
- Queries.Selected: `str.contains` is a regular-expression search by default; the model treats the company filter text as a literal substring.
- Text.Lower: `str.lower()` is modelled for ASCII letters only; other letters are left as they are.
- Collections.SortBy: contracts state sortedness and permutation, not stability. So `Queries.CountsByServiceRanked` does not fix the tie order of `value_counts`, and `Queries.SubmissionsShape` does not fix the order of submissions with equal `created_at`.
- Sheet.AppendedRecords: stated for a sheet that already has row 1. On an empty sheet the first appended row would become the header row, a case `get_worksheet` rules out by writing the header first.
- The colour palette and `config.py`: presentation data with no logic.
- Sheet.DeletedIdGone: stated for sheets whose data rows each have at least one cell, which gspread's padding of `get_all_values` guarantees; `Sheet.Worksheet` does not itself pad rows.

## Findings

| source | as written | input that shows it | evidently intended | confidence | as-written member | corrected member |
|---|---|---|---|---|---|---|
| app.py:319 | `not csm_name or not company_name` tests the names before they are stripped | CSM name `" "`, company `"Acme"`, integrations `["GitHub"]`, no records: the checks pass, and the stored record has CSM name `""` | reject a name that is blank once stripped, as the message "Please enter both CSM name and company name" asks | medium, not executed | Intake.BlankNameGetsThrough | Intake.CheckedRecordsNamed |
