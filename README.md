# Election and candidate stores: soft delete and referential checks

This project models the two record stores of the election microservice,
`ElectionService` and `CandidateService`, in Dafny, and proves what they
promise. The rule that joins them is modelled too: a candidate write first
resolves its election through `ElectionService.findOne`, and a missing or
inactive election makes the write fail.

Each store is a class holding one table (`Tables.Table`). A table maps ids to
rows, and each row carries an `isActive` flag. The table also keeps every id
in creation order. The persistence calls the services make are ordinary
functions on that table value:

- `findUnique` with `is_active: true` is `Tables.FindUnique`.
- `count` is `Tables.Count`.
- `findMany` with skip/take is `Pagination.Window` over `Tables.Matching`.
- `create` is `Tables.TryInsert`.
- `update` is `Tables.TryReplace`.

`Tables.Visible` is the one soft-delete predicate that both stores use.

Modules:

- `Outcomes`: `Option` and `Result`.
- `Errors`: the typed errors (`NotFound`, `CreationFailed`, `UpdateFailed`,
  `RemovalFailed`, `DbError`, each naming its store), the raw persistence
  faults, the HTTP status each typed error carries, and the catch rule
  (`Guard`, `Catch`). The catch rule re-throws a typed error unchanged and
  turns any other error into the operation's generic kind.
- `Pagination`: `lastPage = ceil(total / limit)`, skip/take, the
  `{ data, meta }` envelope, and the page-shape lemmas.
- `Tables`: the generic soft-delete table, its invariant, how it may evolve
  (ids are never erased and an inactive row is never touched again), and the
  count/listing agreement.
- `Elections`: `ElectionService` and its payloads.
- `Candidates`: `CandidateService`. Its constant field `elections` is the
  injected `ElectionService`. Its invariant says no candidate names an
  election row that does not exist.
- `Scenario`: a client method, `RemovedElectionRefusesCandidates`. It creates
  an open election and a candidate in it, then removes the election. It shows
  that re-pointing the candidate at that election then fails with the
  election's NotFound (status 404), that `findOne` no longer sees the
  election, and that a second removal fails. It also shows that a failing
  election lookup makes a candidate create fail with CreationFailed (400).

Modelling choices:

- Randomness and I/O become parameters. The id the store generates for a new
  row is the parameter `newId`. Reusing an existing id is the persistence
  layer's unique violation.
- Boolean parameters say whether a persistence call fails for a reason
  outside the two tables, such as a lost connection or a constraint of the
  database schema, which is not part of this model. `storeFails` is for the
  write or listing query of the operation. `lookupFails` is for the
  `findUnique` inside the store's own `findOne`. `electionLookupFails` is for
  the `findUnique` inside `ElectionService.findOne` when the candidate store
  calls it. `findOne` has no catch block, so its failure escapes raw. When
  `findOne` is called from create, update or remove, that operation's catch
  block re-wraps the failure as its generic kind. So a candidate create whose
  election lookup fails gives CreationFailed (400), even when the election
  exists.
- Listings return rows in creation order. The source relies on the store's
  default order; the model fixes creation order explicitly.
- Ids are non-empty strings, since payload validation accepts only UUIDs. So
  the source's truthiness test on `election_id` in `update` is the same as
  testing whether the field is present.
- New rows are stored active. The `is_active` default comes from the database
  schema, which is not part of this model, so this is an assumption.

Three behaviours of the code that are easy to misread, modelled as written:

- `ElectionService.create` does not await its insert, so its catch block
  never sees a rejected insert. The model lets a rejected election insert
  escape as a raw fault (`Fault.Raw`) instead of classifying it.
- `ElectionService.findAll` has no catch block. A failing election listing
  therefore escapes raw. A failing candidate listing becomes `DbError`.
- The `meta` of a listing echoes `page` but not `limit`.

## Model

| member | source | states |
|---|---|---|
| `Errors.HttpStatus` | src/candidate/candidate.service.ts:41-184 | NotFound carries 404, CreationFailed carries 400, UpdateFailed, RemovalFailed and DbError carry 500 |
| `Errors.Guard` | src/candidate/candidate.service.ts:145-156 | the catch rule: a typed RpcException is returned unchanged, any raw error becomes the given generic kind |
| `Errors.Catch` | src/election/election.service.ts:115-125 | a try block plus that catch: success passes through, a failure is classified by Guard |
| `Pagination.LastPage` | src/election/election.service.ts:52 | lastPage is the ceiling of total/limit: `total <= lastPage*limit` and `(lastPage-1)*limit < total` |
| `Pagination.Window` | src/election/election.service.ts:56-58 | skip/take: the result has `min(take, length - skip)` elements (none past the end), and element k is listing element skip+k |
| `Pagination.Paginate` | src/candidate/candidate.service.ts:80-87 | the envelope echoes page and total, lastPage is the ceiling, at most limit rows, row k is listing row `(page-1)*limit + k` |
| `Pagination.PastLastPage` | src/election/election.service.ts:56-75 | a page beyond lastPage has empty data and the same total and lastPage |
| `Pagination.InnerPageIsFull` | src/election/election.service.ts:56-63 | a page before lastPage holds exactly limit rows |
| `Pagination.PageShape` | src/candidate/candidate.service.ts:64-75 | pages beyond lastPage are empty and pages before it are full |
| `Pagination.LastPageHoldsRest` | src/candidate/candidate.service.ts:64-75 | for a non-empty listing the last page is at least 1 and holds the `total - (lastPage-1)*limit` leftover rows, at least one |
| `Pagination.EveryRowOnItsPage` | src/election/election.service.ts:52-63 | every listed row k appears on page `k/limit + 1` (a page no later than lastPage) at position `k % limit` |
| `Pagination.FiftySevenRows` | src/election/election.service.ts:51-63 | for 57 rows at limit 10: lastPage 6, page 6 holds 7 rows, page 7 is empty with total 57 and lastPage 6 |
| `Tables.Visible` | src/election/election.service.ts:83-84 | the one soft-delete predicate of both stores: a visible id is stored and active, and an id that is not stored is never visible |
| `Tables.Count` | src/candidate/candidate.service.ts:63 | the count query: at most the number of stored rows, and zero exactly when no stored row is active and passes the filter |
| `Tables.FindUnique` | src/candidate/candidate.service.ts:106-108 | a row is returned exactly when the id is present and active, and it is the stored row carrying that id |
| `Tables.InactiveLooksAbsent` | src/election/election.service.ts:82-93 | looking up an inactive row gives the same result as looking up an id that was never stored: none |
| `Tables.Insert` | src/candidate/candidate.service.ts:35-37 | insert keeps the table invariant, adds exactly one key holding the given row, leaves every existing row unchanged and appends the id to creation order |
| `Tables.Replace` | src/candidate/candidate.service.ts:138-141 | update by id keeps keys, order and invariant, sets that one row and leaves all others unchanged; overwriting an active row is a legal evolution |
| `Tables.TryInsert` | src/election/election.service.ts:28-30 | create succeeds exactly when the store does not fail and the id is new; a reused id is a unique violation and leaves the table unchanged |
| `Tables.TryReplace` | src/election/election.service.ts:136-139 | update succeeds exactly when the store does not fail and the id is stored; an unknown id is a missing record |
| `Tables.Listing` | src/candidate/candidate.service.ts:68-75 | the listing holds exactly the stored active rows that pass the filter, among the given ids |
| `Tables.Matching` | src/election/election.service.ts:56-63 | findMany's filtered rows: each is stored, active and passes the filter, and every active row that passes appears |
| `Tables.ListingLength` | src/candidate/candidate.service.ts:63-75 | over distinct ids the listing has one entry per shown id |
| `Tables.CountIsListingLength` | src/election/election.service.ts:51-63 | the count query equals the length of the unpaginated findMany listing |
| `Tables.DeactivateHidesOne` | src/candidate/candidate.service.ts:167-170 | setting is_active to false makes the row invisible to lookup and lowers every filtered count by one exactly when the row passed the filter |
| `Tables.Query` | src/candidate/candidate.service.ts:60-87 | a listing page: total is the count of active matching rows, page is echoed, lastPage is ceil(total/limit), data is exactly the slice of the filtered listing that starts at offset (page-1)*limit and holds min(limit, rows left past the offset) rows, so it is empty past lastPage and full before it |
| `Elections.Strip` | src/election/election.service.ts:102 | the written data is the update payload without its id, every other field carried over |
| `Elections.Patched` | src/election/election.service.ts:107-111 | a field present in the patch takes its new value and an absent field keeps its old one |
| `Elections.WithStatus` | src/election/election.service.ts:51-62 | the status filter: with no status every election passes, with a status exactly the elections in that status pass |
| `Elections.ElectionService.Create` | src/election/election.service.ts:18-41 | succeeds exactly when the id is new and the store does not fail, adding one active row with the payload's fields; a failure leaves the table unchanged and escapes as a raw fault |
| `Elections.ElectionService.FindAll` | src/election/election.service.ts:44-76 | active elections with the status filter: total is the count, page is echoed, lastPage is the ceiling, data is the slice of the active elections of that status starting at offset (page-1)*limit with min(limit, rows left) rows, each active and of that status; a failing query escapes raw |
| `Elections.ElectionService.FindOne` | src/election/election.service.ts:78-97 | succeeds exactly for a present, active id and returns that row; a missing and an inactive id both fail NotFound(election); a failing lookup escapes as a raw fault |
| `Elections.ElectionService.Update` | src/election/election.service.ts:98-127 | a failing lookup fails UpdateFailed and changes nothing; a missing or inactive id fails NotFound and changes nothing; a failing write fails UpdateFailed and changes nothing; otherwise only that row changes, keeping its id and active flag, with the supplied fields overwritten |
| `Elections.ElectionService.Remove` | src/election/election.service.ts:128-155 | a failing lookup fails RemovalFailed and changes nothing; a missing or inactive id fails NotFound and changes nothing; a failing write fails RemovalFailed; otherwise only that row's is_active becomes false and findOne then fails NotFound |
| `Candidates.Strip` | src/candidate/candidate.service.ts:127 | the written data is the update payload without its id, every other field carried over |
| `Candidates.Patched` | src/candidate/candidate.service.ts:137-141 | a field present in the patch takes its new value and an absent field keeps its old one |
| `Candidates.OfElection` | src/candidate/candidate.service.ts:63-74 | the election filter: with no election id every candidate passes, with one exactly that election's candidates pass |
| `Candidates.CandidateService.Create` | src/candidate/candidate.service.ts:23-53 | a failing election lookup fails CreationFailed(candidate) and adds nothing; a missing or inactive election fails with the election's NotFound unchanged and adds nothing; a failed insert fails CreationFailed and adds nothing; success adds exactly one active row with the payload's fields |
| `Candidates.CandidateService.FindAll` | src/candidate/candidate.service.ts:55-100 | active candidates with the election filter: total is the count, page is echoed, lastPage is the ceiling, data is the slice of the active candidates of that election starting at offset (page-1)*limit with min(limit, rows left) rows, each active and of that election; a failing query becomes DbError |
| `Candidates.CandidateService.FindOne` | src/candidate/candidate.service.ts:102-121 | succeeds exactly for a present, active id and returns that row; a missing and an inactive id both fail NotFound(candidate); a failing lookup escapes as a raw fault |
| `Candidates.CandidateService.Update` | src/candidate/candidate.service.ts:123-157 | a failing candidate lookup fails UpdateFailed and changes nothing; a missing or inactive candidate fails NotFound(candidate) and changes nothing; a failing lookup of a named election fails UpdateFailed; a named election that is missing or inactive fails NotFound(election) and changes nothing; success implies a named election is active; otherwise only that row changes, keeping its id, with supplied fields overwritten |
| `Candidates.CandidateService.Remove` | src/candidate/candidate.service.ts:159-186 | a failing lookup fails RemovalFailed and changes nothing; a missing or inactive id fails NotFound and changes nothing; a failing write fails RemovalFailed; otherwise only that row's is_active becomes false and findOne then fails NotFound |

Every store method also keeps its table invariant. Every store method
ensures `Tables.Evolves`: creation order only grows, no row is erased, and an
inactive row is never changed or reactivated. Candidate methods keep the
no-dangling-reference invariant, and by their frames they never change the
election table.

## Left out

- Controllers, message patterns and the module files: transport and
  dependency-injection wiring, not store logic.
- Payload validation (class-validator/class-transformer decorators): inputs
  are taken as well-formed. UUIDs are opaque non-empty strings and dates are
  opaque integers.
- Logging, `Date.now()` timing, `$connect`/`onModuleInit`: I/O with no effect
  on results.
- The text of each RpcException's `message` and `error` fields: only the
  error kind, its store and its HTTP status are modelled.
- Prisma's query semantics beyond the calls the services make. A failure not
  determined by the two tables is represented by a boolean parameter:
  `storeFails` for the write or listing query, `lookupFails` and
  `electionLookupFails` for the `findUnique` inside `findOne`. Only whether a
  call fails is modelled, not which database error it raises.
- The race between the election check and the candidate write: every call is
  sequential and atomic.
- The source computes lastPage by floating-point division and rounding up. The model uses
  the integer ceiling, which agrees while totals stay below 2^53.
- `Elections.ElectionService.Create`: does not classify a rejected insert as
  "Election Creation Failed". The source's catch block cannot see the failure
  of an insert it does not await.
- Row order of listings: the store's default order is replaced by creation
  order.
