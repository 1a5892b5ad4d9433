/** The relational store behind every data-access function: three tables
    held in primary-key order, each with its own AUTO_INCREMENT counter.
    A committed `session.add` appends a row, `session.delete` removes one,
    and `session.get` / `select ... where` are lookups and filters over the
    sequences. */
module Database {
  import opened Common
  import opened Models

  /** Keys are positive, strictly increasing along the table and below the
      table's next AUTO_INCREMENT value, so a newly assigned key is fresh. */
  ghost predicate KeyedBelow<T>(rows: seq<T>, key: T -> int, next: int) {
    && Ascending(rows, key)
    && forall i :: 0 <= i < |rows| ==> 1 <= key(rows[i]) < next
  }

  /** No two agents share a username (the unique index on the username column). */
  ghost predicate UniqueUsernames(agents: seq<Agent>) {
    forall i, j :: 0 <= i < j < |agents| ==> agents[i].username != agents[j].username
  }

  lemma AppendKeyedBelow<T>(rows: seq<T>, key: T -> int, next: int, x: T)
    requires KeyedBelow(rows, key, next)
    requires key(x) == next && 1 <= next
    ensures KeyedBelow(rows + [x], key, next + 1)
  {
    var s := rows + [x];
    forall i, j | 0 <= i < j < |s| ensures key(s[i]) < key(s[j]) {
      assert s[i] == rows[i];
      if j < |rows| { assert s[j] == rows[j]; }
    }
    forall i | 0 <= i < |s| ensures 1 <= key(s[i]) < next + 1 {
      if i < |rows| { assert s[i] == rows[i]; }
    }
  }

  lemma FilterKeyedBelow<T>(rows: seq<T>, p: T -> bool, key: T -> int, next: int)
    requires KeyedBelow(rows, key, next)
    ensures KeyedBelow(Filter(rows, p), key, next)
  {
    FilterAscending(rows, p, key);
    var r := Filter(rows, p);
    forall i | 0 <= i < |r| ensures 1 <= key(r[i]) < next {
      assert r[i] in rows;
    }
  }

  class Store {
    var agents: seq<Agent>
    var terrorists: seq<Terrorist>
    var reports: seq<Report>
    var nextAgentId: int
    var nextTerroristId: int
    var nextReportId: int

    /** The store's integrity constraints: primary keys, the unique
        username index, and the two foreign keys of every report. */
    ghost predicate Valid()
      reads this
    {
      && KeyedBelow(agents, AgentKey, nextAgentId)
      && KeyedBelow(terrorists, TerroristKey, nextTerroristId)
      && KeyedBelow(reports, ReportKey, nextReportId)
      && 1 <= nextAgentId && 1 <= nextTerroristId && 1 <= nextReportId
      && UniqueUsernames(agents)
      && forall r :: r in reports ==> HasAgent(r.agentId) && HasTerrorist(r.terroristId)
    }

    predicate HasAgent(id: int)
      reads this
    {
      exists a :: a in agents && a.id == id
    }

    predicate HasTerrorist(id: int)
      reads this
    {
      exists t :: t in terrorists && t.id == id
    }

    predicate UsernameTaken(username: string)
      reads this
    {
      exists a :: a in agents && a.username == username
    }

    /** An empty database whose counters start at 1. */
    constructor ()
      ensures Valid()
      ensures agents == [] && terrorists == [] && reports == []
      ensures nextAgentId == 1 && nextTerroristId == 1 && nextReportId == 1
    {
      agents, terrorists, reports := [], [], [];
      nextAgentId, nextTerroristId, nextReportId := 1, 1, 1;
    }
  }
}
