# Identity reconciliation: a Dafny model

The service keeps one table, `Contact`. Each row holds an optional email,
an optional phone number, a link precedence (`primary` or `secondary`), an
optional `linkedId`, and three timestamps. Rows that share an email or a
phone number belong to one customer. The design makes the oldest row of
such a group its primary and links every other row to it. The code keeps
this only one merge deep: a root demoted by a merge keeps its own
secondaries linked to itself (see the last section). `POST /identify` receives an
email and/or a phone number and does one of three things:

- it creates a new primary when nothing matches;
- it answers from an exact duplicate without writing;
- otherwise it merges every group the request reaches under the oldest
  root and adds a secondary row when the request carries something the
  group lacks.

Every path ends by building the consolidated view of the resulting group.

The model lives in these modules:

- `Contacts` holds the rows and the store. The store is the table in
  insertion order, the next AUTOINCREMENT id, and a clock. `Wf` is the
  invariant of every store built by the service: ids are positions, links
  point to older rows, a row is secondary exactly when it is linked, and
  creation times ascend.
- `Queries` holds the SELECT statements: the lookup by email or phone, the
  one-hop group expansion, the lookup by id, Python's `min` by `createdAt`,
  and `find_primary_contact_id`.
- `StoreWrites` holds the INSERT (`create_contact`) and the UPDATE
  (`update_contact_to_secondary`).
- `ConsolidatedView` holds `consolidate_contacts`.
- `Reconciliation` holds the `/identify` handler as one total function,
  `Identify`. An invalid request yields `BadRequest` (the 400). An
  exception the handler does not catch yields `InternalFault`.
- `ReconciliationProperties` holds what one call, or two calls in a row,
  does to a well-formed store.
- `Scenarios` is a concrete three-row store. There, a merge leaves a link
  ending at a secondary row.

Semantic choices:

- SQL equality is used in the WHERE clauses. A NULL never matches. Two
  empty strings do match.
- Python truthiness is used in validation and in the view. A value counts
  only when it is present and non-empty.
- Python `==` is used for the exact-duplicate test, so a missing field
  equals a missing field.
- `datetime.now()` is replaced by the store's clock, which every write
  advances by one. Timestamps are therefore strictly increasing, and
  `ORDER BY createdAt` is table order.

## Model

| member | source | states |
|---|---|---|
| Contacts.EmptyStore | main.py:14-34 | the freshly created table is empty and satisfies the store invariant |
| Queries.ContactsByEmailOrPhone | main.py:60-73 | the result holds exactly the active rows whose email or phone equals the argument under SQL equality, oldest first; two NULL arguments find nothing |
| Queries.LinkedContacts | main.py:75-89 | the result holds exactly the active rows that are the root or link to it, oldest first; a secondary of a secondary is not included |
| Queries.FindById | main.py:223-225 | the lookup yields a row of the table with that id, and yields nothing exactly when no row carries the id |
| Queries.FindByIdWf | main.py:223-225 | in a well-formed store the row with id n is the n-th row, and ids outside 1..size find nothing |
| Queries.Oldest | main.py:227 | the chosen row is in the list, no row is older, and it is the first of the oldest rows (the tie rule of `min`) |
| Queries.FirstPrimary | main.py:94-96 | the first primary row of the list, or nothing exactly when the list holds no primary |
| Queries.FindPrimaryContactId | main.py:91-99 | the id of the first primary in the list; without a primary, the id of an oldest row; nothing exactly when the list is empty |
| StoreWrites.CreateContact | main.py:101-117 | the new row gets the next id, which no older row carries; it is appended with the given identifiers and link columns and stamped at the current clock; existing rows are untouched; the store invariant holds after the insert when the link names an existing row |
| StoreWrites.UpdateContactToSecondary | main.py:119-131 | the row with the given id becomes a secondary linked to the given primary; every other row, and every identifier, creation time and tombstone, is unchanged; demoting under an older row keeps the store invariant |
| ConsolidatedView.DistinctValues | main.py:147-163 | the collected values have no duplicates, are exactly the non-empty values of the column, and keep the order of their first occurrence |
| ConsolidatedView.PrimaryRow | main.py:141-143 | the partition loop finds a group member with the primary id, and finds none exactly when no member has that id |
| ConsolidatedView.SecondaryRows | main.py:141-145 | the rows listed as secondaries are exactly the group's members other than the primary, oldest first |
| ConsolidatedView.Consolidate | main.py:133-170 | the view names the requested primary; emails and phones have no duplicates and no empty value, and each belongs to a group member; the secondary ids are exactly the other members, never the primary |
| ConsolidatedView.ConsolidateEmailsComplete | main.py:151-161 | in a well-formed store every non-empty email of a group member is listed, and the primary's own email comes first |
| ConsolidatedView.ConsolidatePhonesComplete | main.py:151-163 | in a well-formed store every non-empty phone of a group member is listed, and the primary's own phone comes first |
| ConsolidatedView.ConsolidateOrder | main.py:151-163 | emails and phones appear in the order the view meets them: the primary's first, then the secondaries' oldest first |
| ConsolidatedView.SecondaryIdsAscend | main.py:169 | in a well-formed store the secondary ids ascend, which is creation order |
| Reconciliation.FirstExact | main.py:189-194 | the loop picks the first row of the lookup equal to the request on both fields, and finds none exactly when no row is such a duplicate |
| Reconciliation.DistinctRoots | main.py:204-212 | the collected roots have no duplicates and are exactly the roots of the matched rows: a primary's own id, a secondary's link |
| Reconciliation.FetchRoots | main.py:220-225 | fetching succeeds exactly when every root is present and names a row; the fetched rows carry the roots' ids, in order |
| Reconciliation.DemoteOthers | main.py:229-232 | every listed root other than the survivor becomes a secondary linked to it; every other row is unchanged; identities are kept; the invariant holds when the survivor is older than the demoted roots |
| Reconciliation.AddIfNew | main.py:238-256 | at most one row is appended, and existing rows are untouched; an appended row carries the request and links to the root; the answer is the view of the resulting store; it fails exactly when the root is NULL |
| Reconciliation.ResolvePrimary | main.py:217-236 | the answer is the root of one of the matched rows; resolving the roots neither adds nor removes rows and keeps every row's identity; with a single root nothing is demoted |
| Reconciliation.Reconcile | main.py:202-256 | the partial-match branch appends at most one row, which links to the answering root, and answers with the view of the resulting store |
| Reconciliation.Identify | main.py:177-256 | a request fails validation exactly when both fields are missing or empty, and then nothing is written; a call appends at most one row and keeps every old row's identity; an appended row is either a new primary whose id is the answer or a secondary linked to the answer; a successful answer is the view of the resulting store |
| ReconciliationProperties.IdentifyPreservesWf | main.py:177-256 | a call on a well-formed store leaves it well formed and never raises an internal fault |
| ReconciliationProperties.ResolvePrimaryWf | main.py:203-236 | on a well-formed store the roots always resolve to an existing row, and the demotions keep the store well formed |
| ReconciliationProperties.NoMatchCreatesPrimary | main.py:183-187 | when nothing matches, exactly one row is appended: a primary with the next id, no link and the request's identifiers; the answer shows that row alone with no secondaries |
| ReconciliationProperties.ExactMatchIsReadOnly | main.py:189-200 | when an active row equals the request on both fields, nothing is written; the answer is the group of such a row, taken at its link or at itself; in a chronological table that row is the oldest duplicate |
| ReconciliationProperties.FirstExactIsOldest | main.py:189-194 | the duplicate the loop picks is the oldest active exact duplicate in the table |
| ReconciliationProperties.ExactMatchIdempotent | main.py:189-200 | repeating a call that found an exact duplicate gives the same store and the same answer |
| ReconciliationProperties.RepeatAfterCreation | main.py:183-187 | after a call that appended a row, repeating the same request writes nothing and gives the same answer |
| ReconciliationProperties.ResolveMergesUnderOldest | main.py:217-234 | when two or more groups are reached, the root with the oldest creation time survives unchanged; every other reached root becomes its secondary; rows that are not reached roots stay as they were |
| ReconciliationProperties.MergeKeepsOldest | main.py:217-256 | after the whole call the answer is the oldest reached root; that root's row is unmodified, every other reached root links to it as a secondary, and every other old row is unchanged |
| ReconciliationProperties.SingleGroupAnswersItsRoot | main.py:235-256 | when the request reaches one group and is no exact duplicate, the call answers with that group's root, changes no old row, and appends a secondary exactly when the request is new to the group |
| ReconciliationProperties.MergeOfTwoAnswersOlder | main.py:227-234 | with exactly two reached groups, the call answers with the older root |
| ReconciliationProperties.HasNewInformationIff | main.py:243-250 | the set-based test for new information agrees with the direct reading: an email or phone that no active member of the group holds |
| ReconciliationProperties.AddIfNewIff | main.py:250-252 | for a known root, a row is appended exactly when the request is new to that root's group, and existing rows are untouched |
| ReconciliationProperties.NewSecondaryIffNewInformation | main.py:238-256 | on a partial match, the answer is the resolved root; one secondary is appended exactly when the request carries an email or phone the resolved group lacks, and none otherwise; it holds the request and links to the answering root |
| ReconciliationProperties.TwoReachedRoots | main.py:204-218 | when the request reaches two different groups, the merge branch is taken |
| ReconciliationProperties.RootIdsAreReachedRoots | main.py:206-225 | the fetched root rows are exactly the roots of the rows the lookup found |
| Scenarios.MergeBreaksFlatness | main.py:229-232 | some well-formed store has every link ending at a primary, yet one call leaves a link ending at a secondary; the answer then omits a phone number that a row of the merged customer still holds |

## Left out

- FastAPI routing, Pydantic request and response classes, and uvicorn start-up (main.py:1-9, 46-58, 172-173, 272-279). These are framework plumbing. The request is a plain datatype, the response's `int` validation becomes the `InternalFault` of a NULL root, and the 400 becomes `BadRequest`.
- SQLite connections and commits (main.py:36-44). The table is a sequence of rows held in memory. Each statement is one function on the store. Connections, transactions and the `FOREIGN KEY` clause are not modelled.
- `datetime.now()` (main.py:113, 130). It is replaced by a counter that each write advances, so every write gets a distinct, increasing timestamp. Equal timestamps from a coarse clock, and decreasing ones from a local clock stepping back (daylight-saving fall-back, clock correction), are not modelled; either would let `ORDER BY createdAt` and `min` disagree with id order.
- Concurrency. The handler reads and then writes without a lock, and two overlapping calls could both create a primary. The model is sequential.
- Soft deletion. No operation sets `deletedAt`. Rows with a tombstone are honoured by every query except the lookup by id, which does not filter on `deletedAt` (main.py:224), but no operation creates one.
- The set `all_related_contacts` (main.py:203, 209-215). It is filled but never read. Its expansion queries have no effect on the result and are not modelled.
- The health endpoint and the `/contacts` listing endpoint (main.py:258-270). They are outside the reconciliation logic.
- Python set iteration order for `primary_ids`. The model visits roots in order of first appearance. Only the choice among roots with equal `createdAt` could depend on that order, and in a well-formed store creation times are distinct.
- `updatedAt` values. They are modelled as clock readings, and no property states more about them than that a demotion stamps the current reading.
- The link between `find_primary_contact_id` and the handler. The handler never calls that helper, so no lemma connects it to `Identify`.

## Where the model follows the code rather than the intended design

- A merge demotes the other roots but does not re-point their existing secondaries (main.py:229-232). The expansion follows links one hop only (main.py:84), so those secondaries drop out of the merged view. `Scenarios.MergeBreaksFlatness` shows this on a concrete store. Because of it, the store invariant `Wf` does not require links to end at primaries.
- Among roots with equal `createdAt`, the survivor is the first one met, not the one with the least id. In a well-formed store the two coincide (`ReconciliationProperties.MergeKeepsOldest`).
- The lookup uses SQL `=`. An empty-string field in the table matches an empty-string field in the request, even though validation ignores empty values.
- A secondary with a NULL `linkedId` would add a NULL root. With several roots, `dict(None)` raises and the model answers `InternalFault`. With a single root, the model appends an unlinked secondary and then fails the response validation. Neither can happen in a well-formed store (`ReconciliationProperties.IdentifyPreservesWf`).
- On the exact-duplicate path the root is `linkedId if linkedId else id`, so a link of 0 is treated as absent. The model keeps this literally.
