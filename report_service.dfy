/** Business rules for reports: a report needs an existing agent and an
    existing terrorist, only its author may delete it when an agent is
    named, and a per-terrorist search answers a total with a short preview.
    The remaining operations pass the data-access results through. */
module ReportService {
  import opened Common
  import opened Models
  import opened Database
  import AgentService
  import TerroristService
  import ReportDal

  /** How many reports the per-terrorist search shows. */
  const PreviewSize: nat := 5

  /** The per-terrorist search's answer: every report counted, a few shown. */
  datatype TerroristReports = TerroristReports(totalCount: nat, reports: seq<Report>)

  /** Files a report. The agent is checked first, then the terrorist; each
      missing one raises `ValueError` (here `AgentNotFound` or
      `TerroristNotFound`) and leaves the store as it was. */
  method CreateReport(db: Store, content: string, agentId: int, terroristId: int)
    returns (r: Result<Report, Error>)
    requires db.Valid()
    modifies db`reports, db`nextReportId
    ensures db.Valid()
    ensures !old(db.HasAgent(agentId)) ==> r == Err(AgentNotFound(agentId)) && unchanged(db)
    ensures old(db.HasAgent(agentId)) && !old(db.HasTerrorist(terroristId)) ==>
              r == Err(TerroristNotFound(terroristId)) && unchanged(db)
    ensures r.Ok? <==> old(db.HasAgent(agentId)) && old(db.HasTerrorist(terroristId))
    ensures r.Ok? ==> && r.value == Report(old(db.nextReportId), content, agentId, terroristId)
                      && db.reports == old(db.reports) + [r.value]
                      && db.nextReportId == old(db.nextReportId) + 1
    ensures r.Ok? ==> ReportDal.CountReportsByTerrorist(db, terroristId)
                      == old(ReportDal.CountReportsByTerrorist(db, terroristId)) + 1
  {
    var agent := AgentService.GetAgentById(db, agentId);
    if agent.None? {
      return Err(AgentNotFound(agentId));
    }
    var terrorist := TerroristService.GetTerroristById(db, terroristId);
    if terrorist.None? {
      return Err(TerroristNotFound(terroristId));
    }
    ghost var before := db.reports;
    r := ReportDal.CreateReport(db, content, agentId, terroristId);
    ReportDal.InsertCountsOnce(before, r.value, terroristId);
  }

  /** Deletes a report. When `agentId` is given and the report exists with
      another author, `PermissionError` (here `NotOwner`) is raised and
      nothing is deleted; otherwise the answer is whether a report was
      deleted, and a missing report is not an error. */
  method DeleteReport(db: Store, reportId: int, agentId: Option<int> := None)
    returns (r: Result<bool, Error>)
    requires db.Valid()
    modifies db`reports
    ensures db.Valid()
    ensures r.Err? <==> && agentId.Some?
                        && old(ReportDal.GetReportById(db, reportId)).Some?
                        && old(ReportDal.GetReportById(db, reportId)).value.agentId != agentId.value
    ensures r.Err? ==> r.error == NotOwner && unchanged(db)
    ensures r.Ok? ==> (r.value <==> old(ReportDal.GetReportById(db, reportId)).Some?)
    ensures r.Ok? && !r.value ==> unchanged(db)
    ensures r.Ok? && r.value ==> |db.reports| == |old(db.reports)| - 1
    ensures r.Ok? ==> && (forall x :: x in db.reports ==> x in old(db.reports) && x.id != reportId)
                      && (forall x :: x in old(db.reports) && x.id != reportId ==> x in db.reports)
  {
    if agentId.Some? {
      var report := GetReportById(db, reportId);
      if report.Some? && report.value.agentId != agentId.value {
        return Err(NotOwner);
      }
    }
    var deleted := ReportDal.DeleteReport(db, reportId);
    r := Ok(deleted);
  }

  /** The number of reports about a terrorist, with the first five of them
      (all of them when there are fewer). */
  function SearchReportsByTerrorist(db: Store, terroristId: int): (r: TerroristReports)
    reads db
    ensures r.totalCount == ReportDal.CountReportsByTerrorist(db, terroristId)
    ensures |r.reports| == Min(PreviewSize, r.totalCount)
    ensures r.reports <= ReportDal.GetReportsByTerrorist(db, terroristId, None)
    ensures forall x :: x in r.reports ==> x in db.reports && x.terroristId == terroristId
  {
    var totalCount := CountReportsByTerrorist(db, terroristId);
    var reports := GetReportsByTerrorist(db, terroristId, Some(PreviewSize));
    TerroristReports(totalCount, reports)
  }

  function GetReportById(db: Store, reportId: int): (r: Option<Report>)
    reads db
    ensures r == ReportDal.GetReportById(db, reportId)
  {
    ReportDal.GetReportById(db, reportId)
  }

  function GetAllReports(db: Store): (r: seq<Report>)
    reads db
    ensures r == ReportDal.GetAllReports(db)
  {
    ReportDal.GetAllReports(db)
  }

  function GetReportsByAgent(db: Store, agentId: int): (r: seq<Report>)
    reads db
    ensures r == ReportDal.GetReportsByAgent(db, agentId)
  {
    ReportDal.GetReportsByAgent(db, agentId)
  }

  function GetReportsByTerrorist(db: Store, terroristId: int, limit: Option<nat> := None): (r: seq<Report>)
    reads db
    ensures r == ReportDal.GetReportsByTerrorist(db, terroristId, limit)
  {
    ReportDal.GetReportsByTerrorist(db, terroristId, limit)
  }

  function SearchReportsByContent(db: Store, keyword: string): (r: seq<Report>)
    reads db
    ensures r == ReportDal.SearchReportsByContent(db, keyword)
  {
    ReportDal.SearchReportsByContent(db, keyword)
  }

  /** Another name for the content search. */
  function SearchReportsByText(db: Store, keyword: string): (r: seq<Report>)
    reads db
    ensures r == ReportDal.SearchReportsByContent(db, keyword)
  {
    SearchReportsByContent(db, keyword)
  }

  function CountReportsByTerrorist(db: Store, terroristId: int): (n: nat)
    reads db
    ensures n == ReportDal.CountReportsByTerrorist(db, terroristId)
  {
    ReportDal.CountReportsByTerrorist(db, terroristId)
  }

  function GetDangerousTerrorists(db: Store, minReports: int := 5): (r: seq<(Terrorist, nat)>)
    reads db
    ensures r == ReportDal.GetDangerousTerrorists(db, minReports)
  {
    ReportDal.GetDangerousTerrorists(db, minReports)
  }

  method GetSuperDangerousTerrorists(db: Store) returns (superDangerous: seq<(Terrorist, nat)>)
    requires db.Valid()
    ensures superDangerous == ReportDal.SuperDangerous(db, ReportDal.GroupCandidates(db))
  {
    superDangerous := ReportDal.GetSuperDangerousTerrorists(db);
  }

  /** An agent may always delete its own report. */
  method DeleteOwnReport(db: Store, report: Report) returns (r: Result<bool, Error>)
    requires db.Valid()
    requires report in db.reports
    modifies db`reports
    ensures r == Ok(true)
    ensures report !in db.reports
    ensures |db.reports| == |old(db.reports)| - 1
  {
    ReportDal.ReportLookupFinds(db, report);
    r := DeleteReport(db, report.id, Some(report.agentId));
  }
}
