/** Data access for the agents table: insert, the lookups by username and
    by id, password authentication and the full listing. */
module AgentDal {
  import opened Common
  import opened Models
  import opened Database

  function HasUsername(username: string): Agent -> bool {
    (a: Agent) => a.username == username
  }

  function HasAgentId(id: int): Agent -> bool {
    (a: Agent) => a.id == id
  }

  /** Inserts a new agent under the next AUTO_INCREMENT id. The unique
      index on `username` makes the database refuse a repeated username;
      the id allocated for the refused row is used up all the same, so the
      counter advances on both paths. */
  method CreateAgent(db: Store, name: string, username: string, password: string)
    returns (r: Result<Agent, Error>)
    requires db.Valid()
    modifies db`agents, db`nextAgentId
    ensures db.Valid()
    ensures r.Err? <==> old(db.UsernameTaken(username))
    ensures db.nextAgentId == old(db.nextAgentId) + 1
    ensures r.Err? ==> r.error == IntegrityError && db.agents == old(db.agents)
    ensures r.Ok? ==> && r.value == Agent(old(db.nextAgentId), name, username, password)
                      && db.agents == old(db.agents) + [r.value]
    ensures r.Ok? ==> forall a :: a in old(db.agents) ==> a.id != r.value.id
  {
    if db.UsernameTaken(username) {
      db.nextAgentId := db.nextAgentId + 1;
      return Err(IntegrityError);
    }
    var agent := Agent(db.nextAgentId, name, username, password);
    AppendKeyedBelow(db.agents, AgentKey, db.nextAgentId, agent);
    forall a | a in db.agents ensures a.id < agent.id {
      var i :| 0 <= i < |db.agents| && db.agents[i] == a;
    }
    db.agents := db.agents + [agent];
    db.nextAgentId := db.nextAgentId + 1;
    assert forall id :: old(db.HasAgent(id)) ==> db.HasAgent(id);
    r := Ok(agent);
  }

  /** The first agent whose username is exactly `username`. */
  function GetAgentByUsername(db: Store, username: string): (r: Option<Agent>)
    reads db
    ensures r.None? <==> !db.UsernameTaken(username)
    ensures r.Some? ==> r.value in db.agents && r.value.username == username
    ensures r.Some? ==> exists k :: && 0 <= k < |db.agents| && db.agents[k] == r.value
                                    && forall j :: 0 <= j < k ==> db.agents[j].username != username
  {
    First(db.agents, HasUsername(username))
  }

  /** The agent whose primary key is `id` (`session.get`). */
  function GetAgentById(db: Store, id: int): (r: Option<Agent>)
    reads db
    ensures r.None? <==> !db.HasAgent(id)
    ensures r.Some? ==> r.value in db.agents && r.value.id == id
  {
    First(db.agents, HasAgentId(id))
  }

  /** The agent found by username, provided its stored password equals
      `password` (a plain equality test). */
  function AuthenticateAgent(db: Store, username: string, password: string): (r: Option<Agent>)
    reads db
    ensures r.Some? ==> r.value in db.agents && r.value.username == username && r.value.password == password
    ensures r.Some? ==> r == GetAgentByUsername(db, username)
    ensures GetAgentByUsername(db, username).None? ==> r.None?
    ensures GetAgentByUsername(db, username).Some? && GetAgentByUsername(db, username).value.password == password
            ==> r == GetAgentByUsername(db, username)
  {
    var agent := GetAgentByUsername(db, username);
    if agent.Some? && agent.value.password == password then agent else None
  }

  /** Every agent, in id order. */
  function GetAllAgents(db: Store): (r: seq<Agent>)
    reads db
    ensures |r| == |db.agents| && forall i :: 0 <= i < |r| ==> r[i] == db.agents[i]
  {
    db.agents
  }

  /** With usernames unique, the lookup by username finds the one agent
      that has it. */
  lemma UsernameLookupFinds(db: Store, a: Agent)
    requires db.Valid()
    requires a in db.agents
    ensures GetAgentByUsername(db, a.username) == Some(a)
  {
    FirstOfUnique(db.agents, HasUsername(a.username), a);
  }

  /** Authentication succeeds exactly when some agent has both the username
      and the password. */
  lemma AuthenticateIff(db: Store, username: string, password: string)
    requires db.Valid()
    ensures AuthenticateAgent(db, username, password).Some?
            <==> exists a :: a in db.agents && a.username == username && a.password == password
  {
    if a :| a in db.agents && a.username == username && a.password == password {
      UsernameLookupFinds(db, a);
    }
  }

  /** The right username with a wrong password is refused. */
  lemma WrongPasswordRefused(db: Store, a: Agent, password: string)
    requires db.Valid()
    requires a in db.agents && password != a.password
    ensures AuthenticateAgent(db, a.username, password).None?
  {
    UsernameLookupFinds(db, a);
  }
}
