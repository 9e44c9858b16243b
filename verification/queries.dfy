/**
 * The read side of app.py: the duplicate test of the intake form and the four
 * views computed from the sheet's records (the submissions table, the CSM
 * filter options and the two leaderboards).
 *
 * Every query takes the records as loaded from the sheet (`Sheet.Records`), in
 * sheet order; an empty record list is pandas' empty DataFrame.
 */
module Queries {
  import opened Text
  import opened Collections
  import opened Sheet

  // ---------------------------------------------------------------------------
  // submission_exists
  // ---------------------------------------------------------------------------

  /** The record is for the same CSM and company, ignoring surrounding whitespace and letter case. */
  predicate SamePair(r: Row, csm: string, company: string)
  {
    Key(r.csmName) == Key(csm) && Key(r.companyName) == Key(company)
  }

  /** submission_exists: some record has the same (CSM, company) pair. */
  function SubmissionExists(rows: seq<Row>, csm: string, company: string): (b: bool)
    ensures b <==> exists i :: 0 <= i < |rows| && SamePair(rows[i], csm, company)
  {
    if rows == [] then false
    else
      var rest := SubmissionExists(rows[1..], csm, company);
      assert forall i :: 0 <= i < |rows| - 1 ==> rows[1..][i] == rows[i + 1];
      SamePair(rows[0], csm, company) || rest
  }

  /** The duplicate test does not depend on padding around the names it is given. */
  lemma SubmissionExistsIgnoresPadding(rows: seq<Row>, csm: string, company: string)
    ensures SubmissionExists(rows, Normalize(csm), Normalize(company)) == SubmissionExists(rows, csm, company)
  {
    KeyOfNormalized(csm);
    KeyOfNormalized(company);
  }

  /**
   * After append_submission with at least one integration, the duplicate test
   * finds the pair it was given.
   */
  lemma AppendedPairExists(values: seq<Cells>, id: string, csm: string, company: string,
                           names: seq<string>, createdAt: string)
    requires values != [] && names != []
    ensures SubmissionExists(Records(values + SubmissionCells(id, csm, company, names, createdAt)), csm, company)
  {
    var before := Records(values);
    var added := SubmissionRows(id, csm, company, names, createdAt);
    AppendedRecords(values, id, csm, company, names, createdAt);
    KeyOfNormalized(csm);
    KeyOfNormalized(company);
    assert (before + added)[|before|] == added[0];
    assert SamePair(added[0], csm, company);
  }

  // ---------------------------------------------------------------------------
  // Name lists: the `.map(str.strip).loc[s != ""].unique()` pipeline, sorted by `str.lower`
  // ---------------------------------------------------------------------------

  /** The order of `sorted(..., key=lambda s: s.lower())`. */
  predicate LowerLe(a: string, b: string)
  {
    Le(Lower(a), Lower(b))
  }

  lemma LowerLeOrders()
    ensures IsTotalPreorder(LowerLe)
  {
    forall a, b ensures LowerLe(a, b) || LowerLe(b, a) {
      LeTotal(Lower(a), Lower(b));
    }
    forall a, b, c | LowerLe(a, b) && LowerLe(b, c) ensures LowerLe(a, c) {
      LeTransitive(Lower(a), Lower(b), Lower(c));
    }
  }

  /** Every name stripped, blanks dropped, in the original order. */
  function StrippedNonBlank(names: seq<string>): (r: seq<string>)
    ensures forall x :: x in r <==> x != "" && exists i :: 0 <= i < |names| && Strip(names[i]) == x
  {
    if names == [] then []
    else
      var rest := StrippedNonBlank(names[1..]);
      assert forall i :: 0 <= i < |names| - 1 ==> names[1..][i] == names[i + 1];
      (if Strip(names[0]) == "" then [] else [Strip(names[0])]) + rest
  }

  /**
   * A list of names as the app shows it: each non-blank stripped name once,
   * ordered case-insensitively.
   */
  function CleanNames(names: seq<string>): (r: seq<string>)
    ensures forall x :: x in r <==> x != "" && exists i :: 0 <= i < |names| && Strip(names[i]) == x
    ensures Distinct(r)
    ensures SortedBy(r, LowerLe)
  {
    var u := Unique(StrippedNonBlank(names));
    LowerLeOrders();
    SortByDistinct(u, LowerLe);
    SortBy(u, LowerLe)
  }

  /** Every name in a cleaned list is non-blank and has no surrounding whitespace. */
  lemma CleanNamesTrimmed(names: seq<string>)
    ensures forall x :: x in CleanNames(names) ==> x != "" && IsTrimmed(x)
  {
    forall x | x in CleanNames(names) ensures x != "" && IsTrimmed(x) {
      var i :| 0 <= i < |names| && Strip(names[i]) == x;
    }
  }

  // ---------------------------------------------------------------------------
  // get_distinct_csms
  // ---------------------------------------------------------------------------

  function CsmNames(rows: seq<Row>): (names: seq<string>)
    ensures |names| == |rows| && forall i :: 0 <= i < |rows| ==> names[i] == rows[i].csmName
  {
    seq(|rows|, i requires 0 <= i < |rows| => rows[i].csmName)
  }

  /** get_distinct_csms: the CSM filter options. */
  function DistinctCsms(rows: seq<Row>): (r: seq<string>)
    ensures forall x :: x in r <==> x != "" && exists i :: 0 <= i < |rows| && Strip(rows[i].csmName) == x
    ensures Distinct(r)
    ensures SortedBy(r, LowerLe)
  {
    CleanNames(CsmNames(rows))
  }

  // ---------------------------------------------------------------------------
  // get_submissions
  // ---------------------------------------------------------------------------

  /**
   * The three filters of the submissions table. An empty CSM or company text and
   * an empty integration list mean "no filter", as a missing one does.
   */
  datatype Filters = Filters(csm: string, company: string, integrations: seq<string>)

  /** One submission as the table shows it: the data rows of one id folded together. */
  datatype Submission = Submission(submissionId: string, csmName: string, companyName: string,
                                   integrations: seq<string>, createdAt: string)

  /**
   * The record passes the filters: same CSM (stripped, lower-cased), company
   * containing the company text (both stripped and lower-cased), integration one
   * of the chosen ones (exact).
   */
  predicate Selected(f: Filters, r: Row)
  {
    (f.csm == "" || Key(r.csmName) == Key(f.csm)) &&
    (f.company == "" || Contains(Key(r.companyName), Key(f.company))) &&
    (f.integrations == [] || r.integrationName in f.integrations)
  }

  function Matching(f: Filters): Row -> bool
  {
    (r: Row) => Selected(f, r)
  }

  /** The records that pass the filters, in sheet order. */
  function Select(rows: seq<Row>, f: Filters): seq<Row>
  {
    Filter(rows, Matching(f))
  }

  function Ids(rows: seq<Row>): (ids: seq<string>)
    ensures |ids| == |rows| && forall i :: 0 <= i < |rows| ==> ids[i] == rows[i].submissionId
  {
    seq(|rows|, i requires 0 <= i < |rows| => rows[i].submissionId)
  }

  function IntegrationNames(rows: seq<Row>): (names: seq<string>)
    ensures |names| == |rows| && forall i :: 0 <= i < |rows| ==> names[i] == rows[i].integrationName
  {
    seq(|rows|, i requires 0 <= i < |rows| => rows[i].integrationName)
  }

  function HasId(id: string): Row -> bool
  {
    (r: Row) => r.submissionId == id
  }

  /**
   * The submission of `id` among `rows`: CSM, company and time of its first
   * record; the cleaned integration names of all its records.
   */
  function GroupOf(rows: seq<Row>, id: string): (s: Submission)
    requires id in Ids(rows)
    ensures s.submissionId == id
  {
    var first := IndexOf(Ids(rows), id).value;
    Submission(id, rows[first].csmName, rows[first].companyName, CleanNames(GroupNamesOf(rows, id)),
               rows[first].createdAt)
  }

  /** The integration names of the records of `id`, in sheet order. */
  function GroupNamesOf(rows: seq<Row>, id: string): seq<string>
  {
    IntegrationNames(Filter(rows, HasId(id)))
  }

  /** A submission takes its CSM, company and time from the first record of its id. */
  lemma GroupOfFirst(rows: seq<Row>, id: string)
    requires id in Ids(rows)
    ensures var s := GroupOf(rows, id);
      exists i :: 0 <= i < |rows| && rows[i].submissionId == id &&
        (forall j :: 0 <= j < i ==> rows[j].submissionId != id) &&
        (s.csmName, s.companyName, s.createdAt) == (rows[i].csmName, rows[i].companyName, rows[i].createdAt)
  {
    var first := IndexOf(Ids(rows), id).value;
    assert rows[first].submissionId == id;
  }

  /**
   * A submission lists, once each and ordered case-insensitively, the non-blank
   * stripped integration names of all the records of its id.
   */
  lemma GroupOfIntegrations(rows: seq<Row>, id: string)
    requires id in Ids(rows)
    ensures var s := GroupOf(rows, id);
      (forall x :: x in s.integrations <==>
        x != "" && exists r :: r in rows && r.submissionId == id && Strip(r.integrationName) == x) &&
      Distinct(s.integrations) && SortedBy(s.integrations, LowerLe)
  {
    var s := GroupOf(rows, id);
    var names := GroupNamesOf(rows, id);
    var clean := CleanNames(names);
    assert s.integrations == clean;
    GroupNames(rows, id);
    forall x | x in clean
      ensures exists r :: r in rows && r.submissionId == id && Strip(r.integrationName) == x
    {
      var k :| 0 <= k < |names| && Strip(names[k]) == x;
      assert names[k] in names;
      var r :| r in rows && r.submissionId == id && r.integrationName == names[k];
    }
    forall x | x != "" && exists r :: r in rows && r.submissionId == id && Strip(r.integrationName) == x
      ensures x in clean
    {
      var r :| r in rows && r.submissionId == id && Strip(r.integrationName) == x;
      assert r.integrationName in names;
      var k :| 0 <= k < |names| && names[k] == r.integrationName;
    }
  }

  /** The integration names listed for `id` are those of the records in `rows` with that id. */
  lemma GroupNames(rows: seq<Row>, id: string)
    ensures forall x :: x in GroupNamesOf(rows, id) <==>
      exists r :: r in rows && r.submissionId == id && r.integrationName == x
  {
    var group := Filter(rows, HasId(id));
    var names := GroupNamesOf(rows, id);
    FilterMembers(rows, HasId(id));
    forall x | x in names ensures exists r :: r in rows && r.submissionId == id && r.integrationName == x {
      var k :| 0 <= k < |names| && names[k] == x;
      assert group[k] in group && HasId(id)(group[k]);
    }
    forall r | r in rows && r.submissionId == id ensures r.integrationName in names {
      assert HasId(id)(r);
      var k :| 0 <= k < |group| && group[k] == r;
      assert names[k] == r.integrationName;
    }
  }

  /** One submission per distinct id, in order of first appearance (`groupby(sort=False)`). */
  function Groups(rows: seq<Row>): (g: seq<Submission>)
    ensures |g| == |Unique(Ids(rows))|
    ensures forall i :: 0 <= i < |g| ==> g[i] == GroupOf(rows, Unique(Ids(rows))[i])
  {
    var ids := Unique(Ids(rows));
    seq(|ids|, i requires 0 <= i < |ids| => GroupOf(rows, ids[i]))
  }

  function IdOf(s: Submission): string
  {
    s.submissionId
  }

  /** The grouped submissions have distinct ids, cover exactly the ids of `rows`, and each is the group of its id. */
  lemma GroupsFacts(rows: seq<Row>)
    ensures DistinctBy(Groups(rows), IdOf)
    ensures forall s :: s in Groups(rows) ==> s.submissionId in Ids(rows) && s == GroupOf(rows, s.submissionId)
    ensures forall id :: id in Ids(rows) ==> exists s :: s in Groups(rows) && s.submissionId == id
  {
    var ids := Unique(Ids(rows));
    var g := Groups(rows);
    assert forall i :: 0 <= i < |g| ==> g[i].submissionId == ids[i];
    forall id | id in Ids(rows) ensures exists s :: s in g && s.submissionId == id {
      var i :| 0 <= i < |ids| && ids[i] == id;
      assert g[i] in g;
    }
  }

  /**
   * `groupby(sort=False)` order: the submissions come in the order in which the
   * first record of each id appears.
   */
  lemma GroupsOrder(rows: seq<Row>)
    ensures forall i, j :: 0 <= i < j < |Groups(rows)| ==>
      FirstIndex(Ids(rows), Groups(rows)[i].submissionId) < FirstIndex(Ids(rows), Groups(rows)[j].submissionId)
  {
    UniqueOrder(Ids(rows));
  }

  /** Newest first, as `out.sort(key=created_at, reverse=True)`. */
  predicate NewerOrSame(a: Submission, b: Submission)
  {
    Le(b.createdAt, a.createdAt)
  }

  lemma NewerOrSameOrders()
    ensures IsTotalPreorder(NewerOrSame)
  {
    forall a, b ensures NewerOrSame(a, b) || NewerOrSame(b, a) {
      LeTotal(a.createdAt, b.createdAt);
    }
    forall a, b, c | NewerOrSame(a, b) && NewerOrSame(b, c) ensures NewerOrSame(a, c) {
      LeTransitive(c.createdAt, b.createdAt, a.createdAt);
    }
  }

  /** The table get_submissions returns: the groups of the passing records, newest first. */
  function Submissions(rows: seq<Row>, f: Filters): seq<Submission>
  {
    NewerOrSameOrders();
    SortBy(Groups(Select(rows, f)), NewerOrSame)
  }

  /**
   * get_submissions: folds the passing records into one submission per id, in
   * order of first appearance, then sorts them newest first.
   */
  method GetSubmissions(rows: seq<Row>, f: Filters) returns (out: seq<Submission>)
    ensures out == Submissions(rows, f)
  {
    var filt := Select(rows, f);
    if filt == [] {
      assert Groups(filt) == [];
      return [];
    }
    var ids := Unique(Ids(filt));
    var groups: seq<Submission> := [];
    var k := 0;
    while k < |ids|
      invariant k <= |ids|
      invariant groups == Groups(filt)[..k]
    {
      var g := GroupOf(filt, ids[k]);
      PrefixSnoc(Groups(filt), k);
      groups := groups + [g];
      k := k + 1;
    }
    assert Groups(filt)[..k] == Groups(filt);
    NewerOrSameOrders();
    out := SortBy(groups, NewerOrSame);
  }

  /**
   * The submissions table is newest first, lists each id once, and each entry
   * is the submission of its id folded from the passing records.
   */
  lemma SubmissionsShape(rows: seq<Row>, f: Filters)
    ensures var out := Submissions(rows, f);
      SortedBy(out, NewerOrSame) &&
      DistinctBy(out, IdOf) &&
      (forall s :: s in out ==> s.submissionId in Ids(Select(rows, f))) &&
      (forall s :: s in out ==> s == GroupOf(Select(rows, f), s.submissionId))
  {
    var groups := Groups(Select(rows, f));
    GroupsFacts(Select(rows, f));
    NewerOrSameOrders();
    SortByDistinctBy(groups, NewerOrSame, IdOf);
    assert forall s :: s in Submissions(rows, f) <==> s in multiset(groups);
  }

  /** The submissions table has an entry for an id exactly when some record of that id passes the filters. */
  lemma SubmissionsCover(rows: seq<Row>, f: Filters)
    ensures var out := Submissions(rows, f);
      (forall s :: s in out ==> exists r :: r in rows && Selected(f, r) && r.submissionId == s.submissionId) &&
      (forall r :: r in rows && Selected(f, r) ==> exists s :: s in out && s.submissionId == r.submissionId)
  {
    SubmissionsSound(rows, f);
    SubmissionsComplete(rows, f);
  }

  lemma SubmissionsSound(rows: seq<Row>, f: Filters)
    ensures forall s :: s in Submissions(rows, f) ==>
      exists r :: r in rows && Selected(f, r) && r.submissionId == s.submissionId
  {
    var filt := Select(rows, f);
    var groups := Groups(filt);
    FilterMembers(rows, Matching(f));
    GroupsFacts(filt);
    NewerOrSameOrders();
    SortByMembers(groups, NewerOrSame);
    forall s | s in Submissions(rows, f) ensures exists r :: r in rows && Selected(f, r) && r.submissionId == s.submissionId {
      var i :| 0 <= i < |filt| && Ids(filt)[i] == s.submissionId;
      assert filt[i] in filt;
    }
  }

  lemma SubmissionsComplete(rows: seq<Row>, f: Filters)
    ensures forall r :: r in rows && Selected(f, r) ==>
      exists s :: s in Submissions(rows, f) && s.submissionId == r.submissionId
  {
    var filt := Select(rows, f);
    var groups := Groups(filt);
    FilterMembers(rows, Matching(f));
    NewerOrSameOrders();
    SortByMembers(groups, NewerOrSame);
    forall r | r in rows && Selected(f, r) ensures exists s :: s in Submissions(rows, f) && s.submissionId == r.submissionId {
      var i :| 0 <= i < |filt| && filt[i] == r;
      assert Ids(filt)[i] == r.submissionId;
      assert r.submissionId in Unique(Ids(filt));
      var j :| 0 <= j < |groups| && Unique(Ids(filt))[j] == r.submissionId;
      assert groups[j] in groups;
    }
  }

  /**
   * With an integration filter, every integration a submission lists is one of
   * the chosen integrations, stripped.
   */
  lemma SubmissionsWithinFilter(rows: seq<Row>, f: Filters)
    requires f.integrations != []
    ensures forall s, x :: s in Submissions(rows, f) && x in s.integrations ==>
      exists n :: n in f.integrations && Strip(n) == x
  {
    var filt := Select(rows, f);
    SubmissionsShape(rows, f);
    FilterMembers(rows, Matching(f));
    forall s, x | s in Submissions(rows, f) && x in s.integrations
      ensures exists n :: n in f.integrations && Strip(n) == x
    {
      GroupOfIntegrations(filt, s.submissionId);
      var r :| r in filt && r.submissionId == s.submissionId && Strip(r.integrationName) == x;
      assert Matching(f)(r);
    }
  }

  // ---------------------------------------------------------------------------
  // get_counts_by_service
  // ---------------------------------------------------------------------------

  /** One leaderboard line: an integration name and the number of records that name it. */
  datatype ServiceCount = ServiceCount(name: string, count: nat)

  function NameOf(c: ServiceCount): string
  {
    c.name
  }

  function CountOf(c: ServiceCount): int
  {
    c.count
  }

  /** Higher count first (`value_counts` sorts by count, descending). */
  predicate MoreUsed(a: ServiceCount, b: ServiceCount)
  {
    a.count >= b.count
  }

  lemma MoreUsedOrders()
    ensures IsTotalPreorder(MoreUsed)
  {
  }

  function ServiceTally(names: seq<string>): (t: seq<ServiceCount>)
    ensures |t| == |Unique(names)|
    ensures forall i :: 0 <= i < |t| ==> t[i] == ServiceCount(Unique(names)[i], multiset(names)[Unique(names)[i]])
  {
    var keys := Unique(names);
    seq(|keys|, i requires 0 <= i < |keys| => ServiceCount(keys[i], multiset(names)[keys[i]]))
  }

  /** get_counts_by_service: `value_counts()` of the integration names, as a list. */
  function CountsByService(rows: seq<Row>): seq<ServiceCount>
  {
    MoreUsedOrders();
    SortBy(ServiceTally(IntegrationNames(rows)), MoreUsed)
  }

  /**
   * The service leaderboard lists each integration name that occurs, with the
   * number of records naming it, and no name that does not occur.
   */
  lemma CountsByServiceContents(rows: seq<Row>)
    ensures forall c :: c in CountsByService(rows) ==>
      1 <= c.count && c.count == multiset(IntegrationNames(rows))[c.name]
    ensures forall c :: c in CountsByService(rows) ==>
      exists i :: 0 <= i < |rows| && rows[i].integrationName == c.name
    ensures forall i :: 0 <= i < |rows| ==>
      exists c :: c in CountsByService(rows) && c.name == rows[i].integrationName
  {
    var names := IntegrationNames(rows);
    MoreUsedOrders();
    ServiceTallyFacts(names);
    SortByMembers(ServiceTally(names), MoreUsed);
    forall i | 0 <= i < |rows| ensures exists c :: c in CountsByService(rows) && c.name == rows[i].integrationName {
      assert names[i] in names;
    }
  }

  /**
   * The service leaderboard names each integration once, most used first, and
   * its counts add up to the number of records.
   */
  lemma CountsByServiceRanked(rows: seq<Row>)
    ensures DistinctBy(CountsByService(rows), NameOf)
    ensures SortedBy(CountsByService(rows), MoreUsed)
    ensures SumOf(CountsByService(rows), CountOf) == |rows|
  {
    var t := ServiceTally(IntegrationNames(rows));
    MoreUsedOrders();
    ServiceTallyFacts(IntegrationNames(rows));
    SortByDistinctBy(t, MoreUsed, NameOf);
    SortBySum(t, MoreUsed, CountOf);
  }

  lemma ServiceTallyFacts(names: seq<string>)
    ensures forall c :: c in ServiceTally(names) ==> 1 <= c.count && c.count == multiset(names)[c.name]
    ensures forall c :: c in ServiceTally(names) ==> c.name in names
    ensures forall x :: x in names ==> exists c :: c in ServiceTally(names) && c.name == x
    ensures DistinctBy(ServiceTally(names), NameOf)
    ensures SumOf(ServiceTally(names), CountOf) == |names|
  {
    var keys, t := Unique(names), ServiceTally(names);
    forall c | c in t ensures c.name in names && 1 <= c.count && c.count == multiset(names)[c.name] {
      var i :| 0 <= i < |t| && t[i] == c;
      assert keys[i] in keys;
    }
    forall x | x in names ensures exists c :: c in t && c.name == x {
      var i :| 0 <= i < |keys| && keys[i] == x;
      assert t[i] in t;
    }
    SumOfCounts(t, CountOf, keys, names);
    CountSumUnique(names);
  }

  // ---------------------------------------------------------------------------
  // get_counts_by_csm
  // ---------------------------------------------------------------------------

  /** One leaderboard line: a CSM, the number of different companies and the number of records. */
  datatype CsmCount = CsmCount(csmName: string, companies: nat, integrations: nat)

  function CsmOf(c: CsmCount): string
  {
    c.csmName
  }

  function IntegrationsOf(c: CsmCount): int
  {
    c.integrations
  }

  /** The different company names among the records of `csm` (`nunique`). */
  function CompaniesOf(rows: seq<Row>, csm: string): set<string>
  {
    set r | r in rows && r.csmName == csm :: r.companyName
  }

  /** More records first, then more companies, then the CSM name in ordinal order. */
  predicate RankedAbove(a: CsmCount, b: CsmCount)
  {
    a.integrations > b.integrations ||
    (a.integrations == b.integrations &&
     (a.companies > b.companies || (a.companies == b.companies && Le(a.csmName, b.csmName))))
  }

  lemma RankedAboveOrders()
    ensures IsTotalPreorder(RankedAbove)
  {
    forall a, b ensures RankedAbove(a, b) || RankedAbove(b, a) {
      LeTotal(a.csmName, b.csmName);
    }
    forall a, b, c | RankedAbove(a, b) && RankedAbove(b, c) ensures RankedAbove(a, c) {
      if a.integrations == b.integrations == c.integrations && a.companies == b.companies == c.companies {
        LeTransitive(a.csmName, b.csmName, c.csmName);
      }
    }
  }

  function CsmTally(rows: seq<Row>): (t: seq<CsmCount>)
    ensures |t| == |Unique(CsmNames(rows))|
    ensures forall i :: 0 <= i < |t| ==>
      var c := Unique(CsmNames(rows))[i];
      t[i] == CsmCount(c, |CompaniesOf(rows, c)|, multiset(CsmNames(rows))[c])
  {
    var keys := Unique(CsmNames(rows));
    seq(|keys|, i requires 0 <= i < |keys| =>
      CsmCount(keys[i], |CompaniesOf(rows, keys[i])|, multiset(CsmNames(rows))[keys[i]]))
  }

  /** get_counts_by_csm: the per-CSM tallies, ranked. */
  function CountsByCsm(rows: seq<Row>): seq<CsmCount>
  {
    RankedAboveOrders();
    SortBy(CsmTally(rows), RankedAbove)
  }

  /**
   * The CSM leaderboard lists each CSM name that occurs, with its number of
   * different companies and of records, and no name that does not occur.
   */
  lemma CountsByCsmContents(rows: seq<Row>)
    ensures forall c :: c in CountsByCsm(rows) ==>
      1 <= c.integrations && c.integrations == multiset(CsmNames(rows))[c.csmName] &&
      1 <= c.companies && c.companies == |CompaniesOf(rows, c.csmName)|
    ensures forall c :: c in CountsByCsm(rows) ==>
      exists i :: 0 <= i < |rows| && rows[i].csmName == c.csmName
    ensures forall i :: 0 <= i < |rows| ==>
      exists c :: c in CountsByCsm(rows) && c.csmName == rows[i].csmName
  {
    var names := CsmNames(rows);
    RankedAboveOrders();
    CsmTallyFacts(rows);
    SortByMembers(CsmTally(rows), RankedAbove);
    forall i | 0 <= i < |rows| ensures exists c :: c in CountsByCsm(rows) && c.csmName == rows[i].csmName {
      assert names[i] in names;
    }
  }

  /**
   * The CSM leaderboard names each CSM once, ranked, and its record counts add
   * up to the number of records.
   */
  lemma CountsByCsmRanked(rows: seq<Row>)
    ensures DistinctBy(CountsByCsm(rows), CsmOf)
    ensures SortedBy(CountsByCsm(rows), RankedAbove)
    ensures SumOf(CountsByCsm(rows), IntegrationsOf) == |rows|
  {
    RankedAboveOrders();
    CsmTallyFacts(rows);
    SortByDistinctBy(CsmTally(rows), RankedAbove, CsmOf);
    SortBySum(CsmTally(rows), RankedAbove, IntegrationsOf);
  }

  lemma CsmTallyFacts(rows: seq<Row>)
    ensures forall c :: c in CsmTally(rows) ==>
      1 <= c.integrations && c.integrations == multiset(CsmNames(rows))[c.csmName] &&
      1 <= c.companies && c.companies == |CompaniesOf(rows, c.csmName)|
    ensures forall c :: c in CsmTally(rows) ==> c.csmName in CsmNames(rows)
    ensures forall x :: x in CsmNames(rows) ==> exists c :: c in CsmTally(rows) && c.csmName == x
    ensures DistinctBy(CsmTally(rows), CsmOf)
    ensures SumOf(CsmTally(rows), IntegrationsOf) == |rows|
  {
    var names := CsmNames(rows);
    var keys, t := Unique(names), CsmTally(rows);
    forall c | c in t ensures c.csmName in names && 1 <= c.integrations && 1 <= c.companies {
      var j :| 0 <= j < |t| && t[j] == c;
      assert keys[j] in keys;
      var i :| 0 <= i < |names| && names[i] == c.csmName;
      assert rows[i].companyName in CompaniesOf(rows, c.csmName);
    }
    forall x | x in names ensures exists c :: c in t && c.csmName == x {
      var i :| 0 <= i < |keys| && keys[i] == x;
      assert t[i] in t;
    }
    SumOfCounts(t, IntegrationsOf, keys, names);
    CountSumUnique(names);
  }
}
