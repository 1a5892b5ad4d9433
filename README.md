# Intelligence record store — a Dafny model

A FastAPI service keeps three tables: **agents** (intelligence officers with a
unique username and a password), **terrorists** (the tracked subjects, with an
optional affiliation and location) and **reports** (free text about a
terrorist, written by an agent). The data-access layer (`app/dal`) turns each
operation into a single query, or into an insert or delete. The services
(`app/services`) add the business rules on top:

- a report needs an existing agent and an existing terrorist;
- only its author may delete a report, when an author is named;
- usernames are unique;
- a terrorist is looked up by exact name, and created when missing.

Two classifiers sit on top of the reports. *Dangerous* terrorists have more
reports than a threshold (five by default). *Super-dangerous* ones have more
than ten reports, and at least one of those reports mentions one of five
Hebrew keywords: attack, knife, rifle, pistol or bomb.

The model replaces the database with one `Database.Store` object. Its three
sequence fields hold the tables in primary-key order, and three counters play
the AUTO_INCREMENT sequences. As in MySQL's InnoDB engine, an insert the
database refuses still uses up the id it was allocated. `Store.Valid()` states the integrity constraints
the schema declares, and every operation preserves them:

- primary keys are positive, increasing and below their counter;
- usernames are unique;
- each report's `agent_id` and `terrorist_id` name existing rows.

Operations that change a table (`session.add`, `session.delete`, `commit`)
are methods with field-level `modifies` clauses. Reads are functions that
only `reads db`, so no read can change the store. Raised exceptions become
`Err` values of `Common.Result`:

| source behaviour | model |
|---|---|
| the database refusing a row | `IntegrityError` |
| the services' `ValueError` | `DuplicateUsername`, `AgentNotFound`, `TerroristNotFound` |
| `PermissionError` | `NotOwner` |

Modules follow the source's layers:

| module | models |
|---|---|
| `Common` | shared list operations |
| `Text` | substring search and ASCII lower-casing |
| `Models` | the records |
| `Database` | the store |
| `AgentDal`, `TerroristDal`, `ReportDal` | the data-access modules |
| `AgentService`, `TerroristService`, `ReportService` | the services |

The super-dangerous query is imperative in the source, and so is the model:
`ReportDal.ScanCandidates` is the outer `for` loop with its two `continue`s,
and `ReportDal.ScanReports` is the inner loop with its `break`. Both are
proved against the specification function `ReportDal.SuperDangerous`. The
lemmas about `ReportDal.SuperDangerous` then give the query's meaning in
terms of the counting and lookup operations.

## Model

| member | source | states |
|---|---|---|
| Common.Limit | app/dal/report_dal.py:49-50 | `if limit:` — a truthy limit keeps the first `min(limit, n)` rows; None or 0 keeps them all; the result is always a prefix |
| Common.First | app/dal/agent_dal.py:22-25 | `.first()` is None exactly when no row matches, and otherwise the earliest matching row |
| Common.CountIsFilterLength | app/dal/report_dal.py:83-84 | SQL `COUNT` over a WHERE equals the length of the filtered rows |
| Text.Lower | app/dal/report_dal.py:135 | lower-casing keeps the length and every non-letter, the Hebrew letters among them |
| Text.CaselessWord | app/dal/report_dal.py:135-136 | for a word without ASCII letters, occurring in the lower-cased text is the same as occurring in the text |
| AgentDal.CreateAgent | app/dal/agent_dal.py:7-16 | appends exactly one agent with the given fields and a fresh id. A taken username is refused by the unique index: the agents table is unchanged, but the allocated id is used up. The counter advances by one either way, and the constraints are preserved |
| AgentDal.GetAgentByUsername | app/dal/agent_dal.py:19-25 | None exactly when no agent has the username; otherwise the first agent with exactly that username |
| AgentDal.GetAgentById | app/dal/agent_dal.py:28-32 | None exactly when no agent has the id; otherwise the agent with that id |
| AgentDal.AuthenticateAgent | app/dal/agent_dal.py:35-40 | when the username lookup finds an agent whose password is equal, that agent is returned. A returned agent always has the username and an equal password. An unknown username gives None |
| AgentDal.AuthenticateIff | app/dal/agent_dal.py:35-40 | authentication succeeds if and only if some agent has both that username and that password |
| AgentDal.WrongPasswordRefused | app/dal/agent_dal.py:38-40 | an existing username with a wrong password is refused |
| AgentDal.UsernameLookupFinds | app/dal/agent_dal.py:19-25 | with unique usernames, the lookup by an agent's username returns that agent |
| AgentDal.GetAllAgents | app/dal/agent_dal.py:43-49 | every agent, in id order |
| AgentService.CreateAgent | app/services/agent_service.py:25-30 | refuses (DuplicateUsername) exactly when the lookup finds the username, leaving the store unchanged; otherwise adds exactly one agent with the given fields; usernames stay unique |
| AgentService.RegisterTwice | app/services/agent_service.py:25-30 | registering one username twice: the first succeeds, the second is refused, exactly one agent is added and the lookup returns the first |
| AgentService.AuthenticateAgent | app/services/agent_service.py:33-44 | the data-access result, unchanged |
| AgentService.GetAgentById | app/services/agent_service.py:47-57 | the data-access result, unchanged |
| AgentService.GetAgentByUsername | app/services/agent_service.py:60-70 | the data-access result, unchanged |
| AgentService.GetAllAgents | app/services/agent_service.py:73-80 | the data-access result, unchanged |
| TerroristDal.CreateTerrorist | app/dal/terrorist_dal.py:7-16 | appends exactly one terrorist with the given fields and a fresh id; other rows are kept |
| TerroristDal.GetTerroristById | app/dal/terrorist_dal.py:19-23 | None exactly when no terrorist has the id; otherwise the one with that id |
| TerroristDal.IdLookupFinds | app/dal/terrorist_dal.py:19-23 | in a valid store the lookup by a terrorist's id returns that terrorist |
| TerroristDal.GetTerroristByName | app/dal/terrorist_dal.py:26-32 | None exactly when no terrorist has that exact name; otherwise the first one that does |
| TerroristDal.SearchTerroristsByName | app/dal/terrorist_dal.py:35-41 | exactly the terrorists whose name contains the fragment |
| TerroristDal.SearchInIdOrder | app/dal/terrorist_dal.py:35-41 | the search keeps id order |
| TerroristDal.GetAllTerrorists | app/dal/terrorist_dal.py:44-50 | every terrorist, in id order |
| TerroristService.CreateTerrorist | app/services/terrorist_service.py:9-25 | the data-access insert: exactly one new terrorist with the given fields |
| TerroristService.GetTerroristById | app/services/terrorist_service.py:28-38 | the data-access result, unchanged |
| TerroristService.GetTerroristByName | app/services/terrorist_service.py:41-51 | the data-access result, unchanged |
| TerroristService.SearchTerroristsByName | app/services/terrorist_service.py:54-64 | the data-access result, unchanged |
| TerroristService.GetAllTerrorists | app/services/terrorist_service.py:67-74 | the data-access result, unchanged |
| TerroristService.GetOrCreateTerrorist | app/services/terrorist_service.py:77-96 | the result always has the requested name. When the exact-name lookup finds a row, that row is returned and nothing changes (affiliation and location are ignored). Otherwise exactly one terrorist with the given fields is created |
| TerroristService.GetOrCreateTwice | app/services/terrorist_service.py:77-96 | two calls with one name return the same terrorist and add at most one row |
| ReportDal.CreateReport | app/dal/report_dal.py:7-16 | appends exactly one report with the given content and foreign keys and a fresh id. A missing agent or terrorist row is refused by the foreign keys: the reports table is unchanged, but the allocated id is used up |
| ReportDal.InsertCountsOnce | app/dal/report_dal.py:79-85 | a new report raises its terrorist's count by one and no other terrorist's count |
| ReportDal.GetReportById | app/dal/report_dal.py:19-23 | None exactly when no report has the id; otherwise the report with that id |
| ReportDal.ReportLookupFinds | app/dal/report_dal.py:19-23 | in a valid store the lookup by a report's id returns that report |
| ReportDal.GetAllReports | app/dal/report_dal.py:26-32 | every report, in id order |
| ReportDal.GetReportsByAgent | app/dal/report_dal.py:35-41 | exactly the reports written by the agent |
| ReportDal.ReportsByAgentInIdOrder | app/dal/report_dal.py:35-41 | the agent's reports come in increasing id |
| ReportDal.GetReportsByTerrorist | app/dal/report_dal.py:44-52 | only reports about the terrorist, a prefix of all of them. A truthy limit gives `min(limit, count)` rows; None or 0 gives all of them |
| ReportDal.SearchReportsByContent | app/dal/report_dal.py:55-61 | exactly the reports whose content contains the keyword |
| ReportDal.ContentSearchInIdOrder | app/dal/report_dal.py:55-61 | the content search's results come in increasing id |
| ReportDal.DeleteRemovesOne | app/dal/report_dal.py:73-74 | removing an existing id from a table with unique keys removes one row |
| ReportDal.DeleteReport | app/dal/report_dal.py:64-76 | true exactly when the report exists. Absent: the store is unchanged. Present: exactly that row goes, and every other row stays |
| ReportDal.CountReportsByTerrorist | app/dal/report_dal.py:79-85 | the number of reports about the terrorist (the length of the unlimited fetch); zero exactly when none is about it |
| ReportDal.DangerousRowsMembers | app/dal/report_dal.py:93-99 | the grouped rows are exactly the terrorists with at least one report and a count strictly above the threshold, each with its count |
| ReportDal.GetDangerousTerrorists | app/dal/report_dal.py:88-100 | each pair carries a terrorist and its report count, which is above both the threshold and zero. Every terrorist whose count is above the threshold and above zero is listed (a count equal to the threshold is not) |
| ReportDal.DangerousOncePerTerrorist | app/dal/report_dal.py:95-96 | rows come in strictly increasing terrorist id, so each terrorist appears at most once |
| ReportDal.DangerousContentIgnoresCase | app/dal/report_dal.py:107-137 | lower-casing cannot change whether a text mentions one of the five keywords |
| ReportDal.KeywordExamples | app/dal/report_dal.py:107-137 | a text mentioning a pistol (אקדח) is dangerous; a routine text is not |
| ReportDal.GroupCandidates | app/dal/report_dal.py:110-117 | each candidate is an existing terrorist's id paired with its report count, which is above ten. Every terrorist with more than ten reports is a candidate |
| ReportDal.AssessFacts | app/dal/report_dal.py:120-141 | one candidate's contribution: nothing for a None id or a missing row; otherwise the pair exactly when one of its reports mentions a keyword |
| ReportDal.SuperDangerousAppend | app/dal/report_dal.py:119-141 | the result over a list of candidates is the results over its parts, concatenated (candidate order is kept) |
| ReportDal.SkippedCandidate | app/dal/report_dal.py:122-127 | a candidate with a None id or a missing row can be removed without changing the result |
| ReportDal.ScanReports | app/dal/report_dal.py:133-138 | the flag is set exactly when some report's lower-cased content contains a keyword |
| ReportDal.ScanCandidates | app/dal/report_dal.py:119-143 | the accumulated list equals the specification over the candidates |
| ReportDal.SuperDangerousIff | app/dal/report_dal.py:103-143 | a pair is listed if and only if its terrorist exists, the count is its report count, the count exceeds ten, and one of its reports mentions a keyword |
| ReportDal.SuperDangerousInIdOrder | app/dal/report_dal.py:110-143 | the result is in increasing terrorist id, the order of the candidates, so no terrorist appears twice |
| ReportDal.SuperDangerousAreDangerous | app/dal/report_dal.py:88-143 | every super-dangerous pair is also in the dangerous list at the default threshold |
| ReportDal.GetSuperDangerousTerrorists | app/dal/report_dal.py:103-143 | the scan's result, characterised pair by pair as in the lemma |
| ReportService.CreateReport | app/services/report_service.py:10-35 | A missing agent gives AgentNotFound; it is checked first, so it wins when both are missing. An existing agent with a missing terrorist gives TerroristNotFound. Both errors leave the store unchanged. With both present, exactly one report is added and that terrorist's count rises by one |
| ReportService.DeleteReport | app/services/report_service.py:135-155 | NotOwner exactly when an agent id is given and the report exists with another author; the store is then unchanged. Otherwise the answer is whether the report existed and it is deleted; a missing report is never an error, whatever the agent id |
| ReportService.DeleteOwnReport | app/services/report_service.py:150-155 | an author deleting their own report succeeds and removes it |
| ReportService.SearchReportsByTerrorist | app/services/report_service.py:117-132 | the total is the terrorist's report count; at most five reports are shown (`min(5, total)`), all about that terrorist and the first of them |
| ReportService.GetReportById | app/services/report_service.py:38-48 | the data-access result, unchanged |
| ReportService.GetAllReports | app/services/report_service.py:51-58 | the data-access result, unchanged |
| ReportService.GetReportsByAgent | app/services/report_service.py:61-71 | the data-access result, unchanged |
| ReportService.GetReportsByTerrorist | app/services/report_service.py:74-88 | the data-access result for the same limit, unchanged |
| ReportService.SearchReportsByContent | app/services/report_service.py:91-101 | the data-access result, unchanged |
| ReportService.SearchReportsByText | app/services/report_service.py:104-114 | the same result as the content search it is an alias of |
| ReportService.CountReportsByTerrorist | app/services/report_service.py:158-168 | the data-access count, unchanged |
| ReportService.GetDangerousTerrorists | app/services/report_service.py:171-181 | the data-access result, with the same default threshold of 5 |
| ReportService.GetSuperDangerousTerrorists | app/services/report_service.py:184-191 | the data-access result |

## Left out

- The HTTP layers (`app/routes`, `app/api`, `app/router.py`), the raw-SQL route, the terminal client, `utils/auth.py`, configuration, engine creation and server startup are not part of this model. They are routing, I/O and process setup.
- Session mechanics (`Session`, `refresh`, connection handling) are abstracted into direct updates of the store's sequences. Each call is one committed transaction.
- Concurrency is not modelled. In particular, the get-or-create race between two writers is out of scope.
- Row order: the database promises no order without `ORDER BY`. The model returns rows in primary-key order, MySQL's usual order for these queries.
- `created_at` timestamps come from the wall clock and are not modelled. Nor are the `print` messages.
- The column length limits (`max_length`) and the Pydantic request schemas are not modelled.
- Text.Lower: only ASCII letters are lower-cased, while Python's `str.lower()` also folds other alphabets. `Text.CaselessWord` proves, for this model's lowering, that case cannot affect a word without ASCII letters. The same holds for Python's full lowering, because no character lowers to or from a Hebrew letter, but that is not proved here.
- TerroristDal.SearchTerroristsByName: SQL `contains` becomes `LIKE '%…%'`. `%` and `_` inside the fragment would act as wildcards, and MySQL's default collation compares without case. The model uses plain case-sensitive substring containment.
- ReportDal.SearchReportsByContent: the same `LIKE` simplification as the name search.
- AgentDal.GetAgentByUsername and TerroristDal.GetTerroristByName: exact equality is modelled as string equality. MySQL's default collation would also ignore case and trailing spaces.
- AgentDal.CreateAgent: the unique index compares usernames with the same collation, so MySQL would refuse "bob" once "Bob" exists. The model, and `Database.UniqueUsernames`, treat them as different usernames.
- ReportDal.GetReportsByTerrorist: `limit` is a `nat`. A negative limit, which SQL would reject, is not modelled.
- ReportDal.GetSuperDangerousTerrorists: the candidates are taken from the grouped count, not re-read per row. The scan's own lookups read the same unchanged store.
- Deleting agents or terrorists is not an operation of the core, so the foreign-key cascade questions it would raise do not arise.
