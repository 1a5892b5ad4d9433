/** Data access for the reports table, and the two aggregate classifiers
    built on it: "dangerous" terrorists (more reports than a threshold) and
    "super-dangerous" ones (more than ten reports, one of which mentions a
    weapon or attack keyword). */
module ReportDal {
  import opened Common
  import opened Models
  import opened Database
  import opened Text
  import TerroristDal

  function AboutTerrorist(terroristId: int): Report -> bool {
    (r: Report) => r.terroristId == terroristId
  }

  function ByAgent(agentId: int): Report -> bool {
    (r: Report) => r.agentId == agentId
  }

  function ContentContains(keyword: string): Report -> bool {
    (r: Report) => Contains(r.content, keyword)
  }

  function HasReportId(id: int): Report -> bool {
    (r: Report) => r.id == id
  }

  function OtherThan(id: int): Report -> bool {
    (r: Report) => r.id != id
  }

  /** The reports about one terrorist, in id order (no limit). */
  function ReportsAbout(reports: seq<Report>, terroristId: int): seq<Report> {
    Filter(reports, AboutTerrorist(terroristId))
  }

  /** The number of reports about one terrorist, counted as SQL counts. */
  function ReportCount(reports: seq<Report>, terroristId: int): nat {
    Count(reports, AboutTerrorist(terroristId))
  }

  // ---------------------------------------------------------------------
  // Insert, lookups, filters and delete
  // ---------------------------------------------------------------------

  /** Inserts a report under the next AUTO_INCREMENT id. The foreign keys on
      `agent_id` and `terrorist_id` make the database refuse a report whose
      agent or terrorist row does not exist; the id allocated for the
      refused row is used up all the same, so the counter advances on both
      paths. */
  method CreateReport(db: Store, content: string, agentId: int, terroristId: int)
    returns (r: Result<Report, Error>)
    requires db.Valid()
    modifies db`reports, db`nextReportId
    ensures db.Valid()
    ensures r.Err? <==> !old(db.HasAgent(agentId)) || !old(db.HasTerrorist(terroristId))
    ensures db.nextReportId == old(db.nextReportId) + 1
    ensures r.Err? ==> r.error == IntegrityError && db.reports == old(db.reports)
    ensures r.Ok? ==> && r.value == Report(old(db.nextReportId), content, agentId, terroristId)
                      && db.reports == old(db.reports) + [r.value]
    ensures r.Ok? ==> forall x :: x in old(db.reports) ==> x.id != r.value.id
  {
    if !db.HasAgent(agentId) || !db.HasTerrorist(terroristId) {
      db.nextReportId := db.nextReportId + 1;
      return Err(IntegrityError);
    }
    var report := Report(db.nextReportId, content, agentId, terroristId);
    AppendKeyedBelow(db.reports, ReportKey, db.nextReportId, report);
    forall x | x in db.reports ensures x.id < report.id {
      var i :| 0 <= i < |db.reports| && db.reports[i] == x;
    }
    db.reports := db.reports + [report];
    db.nextReportId := db.nextReportId + 1;
    r := Ok(report);
  }

  /** The report whose primary key is `id` (`session.get`). */
  function GetReportById(db: Store, id: int): (r: Option<Report>)
    reads db
    ensures r.None? <==> forall x :: x in db.reports ==> x.id != id
    ensures r.Some? ==> r.value in db.reports && r.value.id == id
  {
    var r := First(db.reports, HasReportId(id));
    assert r.None? ==> forall x :: x in db.reports ==> x.id != id by {
      if r.None? {
        forall x | x in db.reports ensures x.id != id {
          var i :| 0 <= i < |db.reports| && db.reports[i] == x;
          assert !HasReportId(id)(db.reports[i]);
        }
      }
    }
    r
  }

  /** In a valid store the lookup by id finds the row with that id. */
  lemma ReportLookupFinds(db: Store, report: Report)
    requires db.Valid()
    requires report in db.reports
    ensures GetReportById(db, report.id) == Some(report)
  {
    var s := db.reports;
    assert AtMostOne(s, HasReportId(report.id)) by {
      forall i, j | 0 <= i < j < |s| && HasReportId(report.id)(s[i]) ensures !HasReportId(report.id)(s[j]) {
        assert ReportKey(s[i]) < ReportKey(s[j]);
      }
    }
    FirstOfUnique(s, HasReportId(report.id), report);
  }

  /** Every report, in id order. */
  function GetAllReports(db: Store): (r: seq<Report>)
    reads db
    ensures |r| == |db.reports| && forall i :: 0 <= i < |r| ==> r[i] == db.reports[i]
  {
    db.reports
  }

  /** The reports written by one agent. */
  function GetReportsByAgent(db: Store, agentId: int): (r: seq<Report>)
    reads db
    ensures forall x :: x in r ==> x in db.reports && x.agentId == agentId
    ensures forall x :: x in db.reports && x.agentId == agentId ==> x in r
  {
    Filter(db.reports, ByAgent(agentId))
  }

  /** The reports about one terrorist; a truthy `limit` keeps only the first
      `limit` of them, while None or 0 keeps them all. */
  function GetReportsByTerrorist(db: Store, terroristId: int, limit: Option<nat> := None): (r: seq<Report>)
    reads db
    ensures forall x :: x in r ==> x in db.reports && x.terroristId == terroristId
    ensures r <= ReportsAbout(db.reports, terroristId)
    ensures |r| == if Truthy(limit) then Min(limit.value, ReportCount(db.reports, terroristId))
                   else ReportCount(db.reports, terroristId)
    ensures !Truthy(limit) ==> forall x :: x in db.reports && x.terroristId == terroristId ==> x in r
  {
    var all := ReportsAbout(db.reports, terroristId);
    CountIsFilterLength(db.reports, AboutTerrorist(terroristId));
    var r := Limit(all, limit);
    assert forall x :: x in r ==> x in all by {
      forall x | x in r ensures x in all {
        var i :| 0 <= i < |r| && r[i] == x;
        assert all[i] == x;
      }
    }
    r
  }

  /** The reports whose content contains `keyword` as a substring. */
  function SearchReportsByContent(db: Store, keyword: string): (r: seq<Report>)
    reads db
    ensures forall x :: x in r ==> x in db.reports && Contains(x.content, keyword)
    ensures forall x :: x in db.reports && Contains(x.content, keyword) ==> x in r
  {
    Filter(db.reports, ContentContains(keyword))
  }

  /** The agent's reports keep id order. */
  lemma ReportsByAgentInIdOrder(db: Store, agentId: int)
    requires db.Valid()
    ensures Ascending(GetReportsByAgent(db, agentId), ReportKey)
  {
    FilterAscending(db.reports, ByAgent(agentId), ReportKey);
  }

  /** The content search keeps id order. */
  lemma ContentSearchInIdOrder(db: Store, keyword: string)
    requires db.Valid()
    ensures Ascending(SearchReportsByContent(db, keyword), ReportKey)
  {
    FilterAscending(db.reports, ContentContains(keyword), ReportKey);
  }

  /** Deleting a report leaves, in a valid store, one row fewer: the one row
      with that id goes, every other stays. */
  lemma {:induction false} DeleteRemovesOne(reports: seq<Report>, id: int)
    requires Ascending(reports, ReportKey)
    requires exists x :: x in reports && x.id == id
    ensures |Filter(reports, OtherThan(id))| == |reports| - 1
  {
    var tail := reports[1..];
    assert Ascending(tail, ReportKey) by {
      forall i, j | 0 <= i < j < |tail| ensures tail[i].id < tail[j].id {
        assert tail[i] == reports[i + 1] && tail[j] == reports[j + 1];
      }
    }
    if reports[0].id == id {
      forall x | x in tail ensures OtherThan(id)(x) {
        var m :| 0 <= m < |tail| && tail[m] == x;
        assert ReportKey(reports[0]) < ReportKey(reports[m + 1]);
      }
      FilterKeepsAll(tail, OtherThan(id));
    } else {
      var x :| x in reports && x.id == id;
      assert x in tail by {
        var m :| 0 <= m < |reports| && reports[m] == x;
        assert m != 0;
        assert tail[m - 1] == x;
      }
      DeleteRemovesOne(tail, id);
    }
  }

  /** Removes the report with id `reportId`, answering whether there was one. */
  method DeleteReport(db: Store, reportId: int) returns (deleted: bool)
    requires db.Valid()
    modifies db`reports
    ensures db.Valid()
    ensures deleted <==> old(GetReportById(db, reportId)).Some?
    ensures !deleted ==> unchanged(db)
    ensures deleted ==> |db.reports| == |old(db.reports)| - 1
    ensures forall x :: x in db.reports ==> x in old(db.reports) && x.id != reportId
    ensures forall x :: x in old(db.reports) && x.id != reportId ==> x in db.reports
  {
    var report := GetReportById(db, reportId);
    if report.None? {
      return false;
    }
    DeleteRemovesOne(db.reports, reportId);
    FilterKeyedBelow(db.reports, OtherThan(reportId), ReportKey, db.nextReportId);
    db.reports := Filter(db.reports, OtherThan(reportId));
    deleted := true;
  }

  /** How many reports are about one terrorist. */
  function CountReportsByTerrorist(db: Store, terroristId: int): (n: nat)
    reads db
    ensures n == |GetReportsByTerrorist(db, terroristId, None)|
    ensures n == 0 <==> forall x :: x in db.reports ==> x.terroristId != terroristId
  {
    var n := ReportCount(db.reports, terroristId);
    assert n == 0 <==> forall x :: x in db.reports ==> x.terroristId != terroristId by {
      var all := ReportsAbout(db.reports, terroristId);
      CountIsFilterLength(db.reports, AboutTerrorist(terroristId));
      if n != 0 {
        assert all[0] in all;
      }
    }
    n
  }

  /** A new report raises its own terrorist's count by one and leaves every
      other terrorist's count as it was. */
  lemma InsertCountsOnce(reports: seq<Report>, x: Report, terroristId: int)
    ensures ReportCount(reports + [x], terroristId)
            == ReportCount(reports, terroristId) + (if x.terroristId == terroristId then 1 else 0)
  {
    CountAppend(reports, x, AboutTerrorist(terroristId));
  }

  // ---------------------------------------------------------------------
  // Dangerous terrorists: a grouped count with a HAVING threshold
  // ---------------------------------------------------------------------

  /** The group of one terrorist in the inner join with the reports, kept
      when its size exceeds `minReports`. A terrorist with no report
      has no group at all. */
  function Grouped(reports: seq<Report>, minReports: int): Terrorist -> Option<(Terrorist, nat)> {
    (t: Terrorist) =>
      var n := ReportCount(reports, t.id);
      if n > 0 && n > minReports then Some((t, n)) else None
  }

  /** The grouped query's rows, in terrorist id order. */
  function DangerousRows(terrorists: seq<Terrorist>, reports: seq<Report>, minReports: int): seq<(Terrorist, nat)> {
    Collect(terrorists, Grouped(reports, minReports))
  }

  /** A row is in the grouped result exactly when its terrorist has a group
      (at least one report) larger than `minReports`, and it carries that
      group's size. */
  lemma DangerousRowsMembers(terrorists: seq<Terrorist>, reports: seq<Report>, minReports: int)
    ensures forall p :: p in DangerousRows(terrorists, reports, minReports) ==>
              && p.0 in terrorists
              && p.1 == ReportCount(reports, p.0.id)
              && p.1 > 0 && p.1 > minReports
    ensures forall t :: t in terrorists && ReportCount(reports, t.id) > 0 && ReportCount(reports, t.id) > minReports
              ==> (t, ReportCount(reports, t.id)) in DangerousRows(terrorists, reports, minReports)
  {
    var f := Grouped(reports, minReports);
    forall p | p in DangerousRows(terrorists, reports, minReports)
      ensures p.0 in terrorists && p.1 == ReportCount(reports, p.0.id) && p.1 > 0 && p.1 > minReports
    {
      CollectMember(terrorists, f, p);
    }
    forall t | t in terrorists && ReportCount(reports, t.id) > 0 && ReportCount(reports, t.id) > minReports
      ensures (t, ReportCount(reports, t.id)) in DangerousRows(terrorists, reports, minReports)
    {
      var i :| 0 <= i < |terrorists| && terrorists[i] == t;
      assert f(terrorists[i]) == Some((t, ReportCount(reports, t.id)));
      CollectMember(terrorists, f, (t, ReportCount(reports, t.id)));
    }
  }

  function RowKey(p: (Terrorist, nat)): int { p.0.id }

  /** `(terrorist, report_count)` for every terrorist with more than
      `minReports` reports (default 5). */
  function GetDangerousTerrorists(db: Store, minReports: int := 5): (r: seq<(Terrorist, nat)>)
    reads db
    ensures forall p :: p in r ==> && p.0 in db.terrorists
                                   && p.1 == CountReportsByTerrorist(db, p.0.id)
                                   && p.1 > minReports && p.1 > 0
    ensures forall t :: t in db.terrorists && CountReportsByTerrorist(db, t.id) > minReports
                        && CountReportsByTerrorist(db, t.id) > 0
                        ==> (t, CountReportsByTerrorist(db, t.id)) in r
  {
    DangerousRowsMembers(db.terrorists, db.reports, minReports);
    DangerousRows(db.terrorists, db.reports, minReports)
  }

  /** A terrorist appears at most once in the dangerous list: the rows come
      in strictly increasing terrorist id. */
  lemma DangerousOncePerTerrorist(db: Store, minReports: int)
    requires db.Valid()
    ensures Ascending(GetDangerousTerrorists(db, minReports), RowKey)
  {
    CollectAscending(db.terrorists, Grouped(db.reports, minReports), TerroristKey, RowKey);
  }

  // ---------------------------------------------------------------------
  // Super-dangerous terrorists: a count threshold, then a keyword scan
  // ---------------------------------------------------------------------

  /** The candidate threshold of the super-dangerous query. */
  const SuperDangerousMinReports: int := 10

  /** Attack (פיגוע), knife (סכין), rifle (רובה), pistol (אקדח), bomb (פצצה). */
  const DangerousKeywords: seq<string> := ["פיגוע", "סכין", "רובה", "אקדח", "פצצה"]

  /** A row of the grouping query: a terrorist id (a nullable column) and its
      report count. */
  datatype Candidate = Candidate(terroristId: Option<int>, reportCount: nat)

  /** Some of the five keywords occurs in the (already lower-cased) text. */
  predicate MentionsKeyword(contentLower: string) {
    exists k :: 0 <= k < |DangerousKeywords| && Contains(contentLower, DangerousKeywords[k])
  }

  predicate HasDangerousContent(content: string) {
    MentionsKeyword(Lower(content))
  }

  predicate AnyDangerousContent(reports: seq<Report>) {
    exists k :: 0 <= k < |reports| && HasDangerousContent(reports[k].content)
  }

  /** Lower-casing cannot change whether a report mentions a keyword: none of
      the five has an ASCII letter in it. */
  lemma DangerousContentIgnoresCase(content: string)
    ensures HasDangerousContent(content)
            <==> exists k :: 0 <= k < |DangerousKeywords| && Contains(content, DangerousKeywords[k])
  {
    forall k | 0 <= k < |DangerousKeywords|
      ensures Contains(Lower(content), DangerousKeywords[k]) <==> Contains(content, DangerousKeywords[k])
    {
      CaselessWord(content, DangerousKeywords[k]);
    }
  }

  /** A report mentioning a pistol is dangerous whatever the case of the
      surrounding text; a routine report is not. */
  lemma KeywordExamples()
    ensures HasDangerousContent("Seen carrying an אקדח")
    ensures !HasDangerousContent("Routine patrol")
  {
    var pistol := "Seen carrying an אקדח";
    var lower := Lower(pistol);
    assert DangerousKeywords[3] == "אקדח";
    assert DangerousKeywords[3] <= lower[17..];
    var routine := "Routine patrol";
    var quiet := Lower(routine);
    forall k, i | 0 <= k < |DangerousKeywords| && 0 <= i <= |quiet| - |DangerousKeywords[k]|
      ensures !(DangerousKeywords[k] <= quiet[i..])
    {
      assert quiet[i] == LowerChar(routine[i]);
      assert quiet[i..][0] == quiet[i];
    }
  }

  function AsCandidate(p: (Terrorist, nat)): Candidate {
    Candidate(Some(p.0.id), p.1)
  }

  /** The rows of the grouping query with threshold 10, as candidates. */
  function GroupCandidates(db: Store): (c: seq<Candidate>)
    reads db
    ensures forall x :: x in c ==> x.terroristId.Some? && x.reportCount > SuperDangerousMinReports
    ensures forall x :: x in c ==>
              exists t :: t in db.terrorists && x == Candidate(Some(t.id), ReportCount(db.reports, t.id))
    ensures forall t :: t in db.terrorists && ReportCount(db.reports, t.id) > SuperDangerousMinReports
              ==> Candidate(Some(t.id), ReportCount(db.reports, t.id)) in c
  {
    var rows := DangerousRows(db.terrorists, db.reports, SuperDangerousMinReports);
    DangerousRowsMembers(db.terrorists, db.reports, SuperDangerousMinReports);
    var c := seq(|rows|, i requires 0 <= i < |rows| => AsCandidate(rows[i]));
    assert forall x :: x in c ==>
             && x.terroristId.Some? && x.reportCount > SuperDangerousMinReports
             && exists t :: t in db.terrorists && x == Candidate(Some(t.id), ReportCount(db.reports, t.id)) by {
      forall x | x in c
        ensures && x.terroristId.Some? && x.reportCount > SuperDangerousMinReports
                && exists t :: t in db.terrorists && x == Candidate(Some(t.id), ReportCount(db.reports, t.id))
      {
        var i :| 0 <= i < |c| && c[i] == x;
        assert rows[i] in rows;
      }
    }
    assert forall t :: t in db.terrorists && ReportCount(db.reports, t.id) > SuperDangerousMinReports
             ==> Candidate(Some(t.id), ReportCount(db.reports, t.id)) in c by {
      forall t | t in db.terrorists && ReportCount(db.reports, t.id) > SuperDangerousMinReports
        ensures Candidate(Some(t.id), ReportCount(db.reports, t.id)) in c
      {
        var i :| 0 <= i < |rows| && rows[i] == (t, ReportCount(db.reports, t.id));
        assert c[i] == Candidate(Some(t.id), ReportCount(db.reports, t.id));
      }
    }
    c
  }

  /** What one pass of the scan loop contributes for candidate `c`, given
      the contents of the terrorists and reports tables: the lookup
      (`session.get`) and the unlimited report fetch are the ones
      `TerroristDal.GetTerroristById` and `GetReportsByTerrorist` make. */
  function Assess(terrorists: seq<Terrorist>, reports: seq<Report>, c: Candidate): Option<(Terrorist, nat)> {
    if c.terroristId.None? then None
    else
      match First(terrorists, TerroristDal.HasTerroristId(c.terroristId.value))
      case None => None
      case Some(t) =>
        if AnyDangerousContent(ReportsAbout(reports, c.terroristId.value))
        then Some((t, c.reportCount))
        else None
  }

  function Assessor(terrorists: seq<Terrorist>, reports: seq<Report>): Candidate -> Option<(Terrorist, nat)> {
    (c: Candidate) => Assess(terrorists, reports, c)
  }

  /** The scan's accumulator after a list of candidates: each candidate's
      contribution, in candidate order. */
  function SuperDangerous(db: Store, candidates: seq<Candidate>): seq<(Terrorist, nat)>
    reads db
  {
    Collect(candidates, Assessor(db.terrorists, db.reports))
  }

  /** A candidate contributes nothing when its id is None or its row is
      missing; otherwise it contributes `(terrorist, report_count)` exactly
      when one of its reports mentions a keyword. */
  lemma AssessFacts(db: Store, c: Candidate)
    ensures c.terroristId.None? ==> Assess(db.terrorists, db.reports, c).None?
    ensures c.terroristId.Some? && !db.HasTerrorist(c.terroristId.value) ==> Assess(db.terrorists, db.reports, c).None?
    ensures c.terroristId.Some? && db.HasTerrorist(c.terroristId.value) ==>
              Assess(db.terrorists, db.reports, c)
              == if AnyDangerousContent(GetReportsByTerrorist(db, c.terroristId.value, None))
                 then Some((TerroristDal.GetTerroristById(db, c.terroristId.value).value, c.reportCount))
                 else None
  {
  }

  /** The result keeps candidate order: it distributes over concatenation. */
  lemma SuperDangerousAppend(db: Store, c1: seq<Candidate>, c2: seq<Candidate>)
    ensures SuperDangerous(db, c1 + c2) == SuperDangerous(db, c1) + SuperDangerous(db, c2)
  {
    CollectAppend(c1, c2, Assessor(db.terrorists, db.reports));
  }

  /** A candidate with no id, or whose row is gone, is skipped: the result
      is as if it were not in the list. */
  lemma SkippedCandidate(db: Store, before: seq<Candidate>, c: Candidate, after: seq<Candidate>)
    requires c.terroristId.None? || !db.HasTerrorist(c.terroristId.value)
    ensures SuperDangerous(db, before + [c] + after) == SuperDangerous(db, before + after)
  {
    AssessFacts(db, c);
    CollectSkip(before, c, after, Assessor(db.terrorists, db.reports));
  }

  /** The inner loop of the super-dangerous query: does some report's
      lower-cased content contain a keyword? It stops at the first that does. */
  method ScanReports(reports: seq<Report>) returns (hasDangerousContent: bool)
    ensures hasDangerousContent <==> AnyDangerousContent(reports)
  {
    hasDangerousContent := false;
    var j := 0;
    while j < |reports|
      invariant 0 <= j <= |reports|
      invariant forall k :: 0 <= k < j ==> !HasDangerousContent(reports[k].content)
    {
      var contentLower := Lower(reports[j].content);
      if MentionsKeyword(contentLower) {
        hasDangerousContent := true;
        break;
      }
      j := j + 1;
    }
  }

  /** The outer loop of the super-dangerous query, over the candidates as
      they were grouped: skip a candidate without an id or without a row,
      otherwise keep it when its reports mention a keyword. */
  method ScanCandidates(db: Store, potential: seq<Candidate>) returns (superDangerous: seq<(Terrorist, nat)>)
    ensures superDangerous == SuperDangerous(db, potential)
  {
    superDangerous := [];
    for i := 0 to |potential|
      invariant superDangerous == SuperDangerous(db, potential[..i])
    {
      assert potential[..i + 1][..i] == potential[..i];
      var candidate := potential[i];
      AssessFacts(db, candidate);
      if candidate.terroristId.None? {
        continue;
      }
      var terroristId := candidate.terroristId.value;
      var terrorist := TerroristDal.GetTerroristById(db, terroristId);
      if terrorist.None? {
        continue;
      }
      var reports := GetReportsByTerrorist(db, terroristId);
      var hasDangerousContent := ScanReports(reports);
      if hasDangerousContent {
        superDangerous := superDangerous + [(terrorist.value, candidate.reportCount)];
      }
    }
    assert potential[..|potential|] == potential;
  }

  /** In a valid store a terrorist is super-dangerous exactly when it has
      more than ten reports and one of them mentions a keyword; each such
      terrorist carries its report count. */
  lemma SuperDangerousIff(db: Store, t: Terrorist, n: nat)
    requires db.Valid()
    ensures (t, n) in SuperDangerous(db, GroupCandidates(db))
            <==> && t in db.terrorists
                 && n == CountReportsByTerrorist(db, t.id)
                 && n > SuperDangerousMinReports
                 && AnyDangerousContent(GetReportsByTerrorist(db, t.id, None))
  {
    var c := GroupCandidates(db);
    var f := Assessor(db.terrorists, db.reports);
    CollectMember(c, f, (t, n));
    if (t, n) in SuperDangerous(db, c) {
      var i :| 0 <= i < |c| && f(c[i]) == Some((t, n));
      assert c[i] in c;
      var u :| u in db.terrorists && c[i] == Candidate(Some(u.id), ReportCount(db.reports, u.id));
      AssessFacts(db, c[i]);
      TerroristDal.IdLookupFinds(db, u);
    }
    if && t in db.terrorists && n == CountReportsByTerrorist(db, t.id)
       && n > SuperDangerousMinReports && AnyDangerousContent(GetReportsByTerrorist(db, t.id, None)) {
      var x := Candidate(Some(t.id), n);
      assert x in c;
      var i :| 0 <= i < |c| && c[i] == x;
      AssessFacts(db, x);
      TerroristDal.IdLookupFinds(db, t);
      assert f(c[i]) == Some((t, n));
    }
  }

  function CandidateKey(c: Candidate): int {
    if c.terroristId.Some? then c.terroristId.value else 0
  }

  /** The candidates come in terrorist id order, and the scan keeps that
      order: the result is a subsequence of the candidates, each terrorist
      at most once. */
  lemma SuperDangerousInIdOrder(db: Store)
    requires db.Valid()
    ensures Ascending(SuperDangerous(db, GroupCandidates(db)), RowKey)
  {
    var c := GroupCandidates(db);
    var rows := DangerousRows(db.terrorists, db.reports, SuperDangerousMinReports);
    CollectAscending(db.terrorists, Grouped(db.reports, SuperDangerousMinReports), TerroristKey, RowKey);
    assert Ascending(c, CandidateKey) by {
      forall i, j | 0 <= i < j < |c| ensures CandidateKey(c[i]) < CandidateKey(c[j]) {
        assert c[i] == AsCandidate(rows[i]) && c[j] == AsCandidate(rows[j]);
      }
    }
    var f := Assessor(db.terrorists, db.reports);
    forall x | f(x).Some? ensures RowKey(f(x).value) == CandidateKey(x) {
    }
    CollectAscending(c, f, CandidateKey, RowKey);
  }

  /** Every super-dangerous terrorist is also dangerous at the default
      threshold. */
  lemma SuperDangerousAreDangerous(db: Store, t: Terrorist, n: nat)
    requires db.Valid()
    requires (t, n) in SuperDangerous(db, GroupCandidates(db))
    ensures (t, n) in GetDangerousTerrorists(db)
  {
    SuperDangerousIff(db, t, n);
  }

  /** Terrorists with more than ten reports, kept when some report's
      lower-cased content contains one of the five keywords. */
  method GetSuperDangerousTerrorists(db: Store) returns (superDangerous: seq<(Terrorist, nat)>)
    requires db.Valid()
    ensures superDangerous == SuperDangerous(db, GroupCandidates(db))
    ensures forall t, n :: (t, n) in superDangerous
              <==> && t in db.terrorists
                   && n == CountReportsByTerrorist(db, t.id)
                   && n > SuperDangerousMinReports
                   && AnyDangerousContent(GetReportsByTerrorist(db, t.id, None))
  {
    var potential := GroupCandidates(db);
    superDangerous := ScanCandidates(db, potential);
    forall t: Terrorist, n: nat
      ensures (t, n) in superDangerous
              <==> && t in db.terrorists
                   && n == CountReportsByTerrorist(db, t.id)
                   && n > SuperDangerousMinReports
                   && AnyDangerousContent(GetReportsByTerrorist(db, t.id, None))
    {
      SuperDangerousIff(db, t, n);
    }
  }
}
