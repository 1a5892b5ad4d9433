/** The three table rows (agents, terrorists, reports) and the errors the
    operations signal. The `created_at` timestamps are not modelled. */
module Models {
  import opened Common

  /** An intelligence agent who writes reports; `username` is unique. */
  datatype Agent = Agent(id: int, name: string, username: string, password: string)

  /** A person tracked by the reports. */
  datatype Terrorist = Terrorist(id: int, name: string, affiliation: Option<string>, location: Option<string>)

  /** A free-text report about a terrorist, written by an agent. */
  datatype Report = Report(id: int, content: string, agentId: int, terroristId: int)

  /** What an operation raises instead of returning. The store's own
      constraint violations (a repeated username, a foreign key with no row)
      are `IntegrityError`; the services' `ValueError`s are the three
      "not valid" cases; their `PermissionError` is `NotOwner`. */
  datatype Error =
    | IntegrityError
    | DuplicateUsername(username: string)
    | AgentNotFound(agentId: int)
    | TerroristNotFound(terroristId: int)
    | NotOwner

  /** Primary keys, as function values for the key-order predicates. */
  function AgentKey(a: Agent): int { a.id }
  function TerroristKey(t: Terrorist): int { t.id }
  function ReportKey(r: Report): int { r.id }
}
