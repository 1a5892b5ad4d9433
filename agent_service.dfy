/** Business rules for agents: registration refuses a username that is
    already taken; the reads pass the data-access results through. */
module AgentService {
  import opened Common
  import opened Models
  import opened Database
  import AgentDal

  /** Registers an agent, raising `ValueError` (here `DuplicateUsername`)
      when the username exists; the store is then left as it was. */
  method CreateAgent(db: Store, name: string, username: string, password: string)
    returns (r: Result<Agent, Error>)
    requires db.Valid()
    modifies db`agents, db`nextAgentId
    ensures db.Valid()
    ensures r.Err? <==> old(AgentDal.GetAgentByUsername(db, username)).Some?
    ensures r.Err? ==> r.error == DuplicateUsername(username) && unchanged(db)
    ensures r.Ok? ==> && r.value == Agent(old(db.nextAgentId), name, username, password)
                      && db.agents == old(db.agents) + [r.value]
                      && db.nextAgentId == old(db.nextAgentId) + 1
    ensures r.Ok? ==> forall a :: a in old(db.agents) ==> a.id != r.value.id
  {
    var existing := AgentDal.GetAgentByUsername(db, username);
    if existing.Some? {
      return Err(DuplicateUsername(username));
    }
    r := AgentDal.CreateAgent(db, name, username, password);
  }

  /** Registering the same username twice: the second call is refused and
      the lookup by username still finds the first agent. */
  method RegisterTwice(db: Store, name1: string, name2: string, username: string,
                       password1: string, password2: string)
    returns (first: Result<Agent, Error>, second: Result<Agent, Error>)
    requires db.Valid()
    requires !db.UsernameTaken(username)
    modifies db`agents, db`nextAgentId
    ensures db.Valid()
    ensures first.Ok? && first.value.name == name1 && first.value.password == password1
    ensures second == Err(DuplicateUsername(username))
    ensures GetAgentByUsername(db, username) == Some(first.value)
    ensures db.agents == old(db.agents) + [first.value]
  {
    first := CreateAgent(db, name1, username, password1);
    second := CreateAgent(db, name2, username, password2);
    AgentDal.UsernameLookupFinds(db, first.value);
  }

  function AuthenticateAgent(db: Store, username: string, password: string): (r: Option<Agent>)
    reads db
    ensures r == AgentDal.AuthenticateAgent(db, username, password)
  {
    AgentDal.AuthenticateAgent(db, username, password)
  }

  function GetAgentById(db: Store, id: int): (r: Option<Agent>)
    reads db
    ensures r == AgentDal.GetAgentById(db, id)
  {
    AgentDal.GetAgentById(db, id)
  }

  function GetAgentByUsername(db: Store, username: string): (r: Option<Agent>)
    reads db
    ensures r == AgentDal.GetAgentByUsername(db, username)
  {
    AgentDal.GetAgentByUsername(db, username)
  }

  function GetAllAgents(db: Store): (r: seq<Agent>)
    reads db
    ensures r == AgentDal.GetAllAgents(db)
  {
    AgentDal.GetAllAgents(db)
  }
}
