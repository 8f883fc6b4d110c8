# Contact identity reconciliation, modelled in Dafny

The backend keeps one `Contact` table. A row holds an optional email and an optional
phone number (both may be NULL), a `linkPrecedence` (`primary` or `secondary`), an
optional `linkedId` naming the row it was linked to (meant to be a primary, but not
always one: see below), a `createdAt` stamp and a `deletedAt` soft-delete stamp. A
reconciliation call receives an `email` and a `phoneNumber` and works as follows:

1. It rejects the call when neither value is a non-empty string.
2. It fetches every row sharing either supplied value, oldest first.
3. It creates a primary when nothing matches. Otherwise it picks the first matching
   primary, or the first matching row when none is primary.
4. It demotes every other matching primary to a secondary of the chosen row.
5. It may insert a secondary carrying the request's values.
6. It re-fetches the chosen row together with the rows linked to it, and reports:
   - the chosen row's id;
   - the distinct emails and phone numbers of those rows;
   - the ids of the secondaries among them.

The repository holds two copies of this code:

- `reconcileContact` in `src/services/contactService.js`;
- the body of the `POST /identify` handler in `index.js`.

The two copies differ in three things:

- When a secondary is inserted:
  - the service inserts one only when the exact (email, phone) pair is unknown AND one
    of the two values is new;
  - the handler inserts one whenever the exact pair is unknown.
- How a rejection surfaces: the service throws, and the handler replies with status 400.
- The final fetch: the service orders it by `createdAt`, and the handler gives no order.

In this model only the insertion rule changes the outcome. A rejection is the same
`MissingContactInfo` result in both copies. The unordered fetch is taken to return
store order, which here is `createdAt` order (see "Left out").

## Structure

- `seqs.dfy` (`Seqs`): sequence helpers. `Dedup` models `[...new Set(xs)]`: first
  occurrences, each value once, in order.
- `contacts.dfy` (`Contacts`): the row and table datatypes and the request values as
  JavaScript sees them. A field is `Undefined`, `Null` or `Str(s)`; truthiness is `Truthy`
  and `===` against a column is `StrictEquals`. The file also gives the value meaning of
  the Prisma calls the core makes: `Select` is `findMany({ where })`, `Insert` is
  `create`, `UpdateRows` is `update` by id.
- `store.dfy` (`ContactStore`): a `Store` class whose `rows`, `nextId` and `clock` fields
  are changed in place by `Create` and `Update`. `FindMany` reads them with a loop.
- `reconciliation.dfy` (`Reconciliation`): the algorithm as values. `Reconcile(policy, t,
  email, phoneNumber)` gives the table after the call and the call's result. `Policy`
  names the insertion rule: `NewValueOnly` for the service, `UnlessExactPair` for the
  handler.
- `demotion.dfy` (`Demotion`): the demotion loop, which both copies share, as a method
  on the store.
- `contact_service.dfy` (`ContactService`) and `identify_handler.dfy`
  (`IdentifyHandler`): the two copies as imperative methods on a `Store`. Each is proved
  to leave the store and return exactly what `Reconcile` under its policy describes.
- `properties.dfy` (`ReconciliationProperties`): what `Reconcile` guarantees.
  - Rejection.
  - The choice of the oldest primary.
  - The effect of demotion.
  - The insertion rule and how the two copies differ.
  - Idempotence of a repeated request.
  - The content of the response.
  - Scenarios taken from the service's tests.

## Behaviour the proofs make explicit

- A field that is missing (`undefined`) is stored as NULL. It never equals a stored
  column under `===`, so it never counts as an exact pair or a known value. A request
  that is accepted but omits a field therefore inserts a new row every time
  (`OmittedFieldAlwaysInserts`, `OmittedFieldRepeatGrows`). Idempotence
  (`RepeatIsStable`) holds for requests whose fields are all strings or `null`.
- No `linkedId` is followed. When every matching row is a secondary, the oldest of those
  rows is reported as the primary. Its own id then also appears in
  `secondaryContactIds`. That row stays a secondary, and a row the call inserts gets
  its id as `linkedId`, so the new row is linked to a secondary
  (`ReportedPrimaryMayBeSecondary`).
- Nothing reads `deletedAt`, so a soft-deleted primary is matched, chosen and reported
  like any other row. The last case of the service's tests is titled as if soft-deleted
  rows were ignored and a new primary were created. Its expectations (primary id 7, the
  old email reported) agree with the code, and so does `SoftDeletedPrimaryIsReported`.
  The model follows the code.
- A secondary that was linked to a primary demoted by this call keeps its old `linkedId`
  (`DemotionEffect`). It is therefore missing from the re-fetched group.

## Model

| member | source | states |
|---|---|---|
| ContactService.ReconcileContact | src/services/contactService.js:17-102 | keeps the store valid; the new store and the result are exactly `Reconcile(NewValueOnly, …)` of the old store, including the rejection |
| ContactService.CreatePrimaryContact | src/services/contactService.js:11-15 | appends one primary row with the given values, the next id and the current clock, and no link; the store stays valid |
| ContactService.GetFilteredContacts | src/services/contactService.js:3-9 | returns exactly the rows matching every truthy filter value, each listed once (distinct ids); with no truthy filter, the whole table in store order |
| IdentifyHandler.Identify | index.js:63-147 | keeps the store valid; the new store and the result are exactly `Reconcile(UnlessExactPair, …)` of the old store, where rejection is the status-400 reply |
| Demotion.DemoteOtherPrimaries | src/services/contactService.js:42-52 | after the loop, the rows are the old rows with every matched primary other than the chosen one demoted to a secondary linked to it; the counters are unchanged, and a valid store stays valid |
| ContactStore.Store.FindMany | src/services/contactService.js:22-30 | returns the rows the filter selects, in store order |
| ContactStore.Store.Create | src/services/contactService.js:64-71 | appends one row with the next id and the current clock and advances both counters; validity is preserved |
| ContactStore.Store.Update | src/services/contactService.js:44-50 | the row with the id gets the new link fields, every other row is unchanged, the counters are unchanged, and validity is preserved |
| Contacts.Stored | src/services/contactService.js:64-71 | the value `create` writes reads back `===` to the request field exactly when the field was not `undefined` (so a `null` field round-trips, a missing one never does); the column is NULL exactly for `undefined` and `null` |
| Contacts.Insert | src/services/contactService.js:12-14 | the table gains exactly one row at the end, the counters grow, and validity is preserved |
| Contacts.UpdateRows | src/services/contactService.js:44-50 | same length; ids and createdAt kept; only the row with the id changes, and only in its link fields |
| Contacts.SelectSpec | src/services/contactService.js:76-86 | a `findMany` keeps exactly the rows the filter accepts, and preserves createdAt order and distinct ids |
| Contacts.SelectAll | src/services/contactService.js:8 | a filter that accepts every row returns the whole table in order |
| Contacts.Select | src/services/contactService.js:22-30 | value model of `findMany({ where })`; no contract of its own, specified by `Contacts.SelectSpec` and `Contacts.SelectAll` |
| Reconciliation.MatchWhere | src/services/contactService.js:24-27 | the match filter is an OR of at most two equalities, and it is an empty OR exactly when the request is rejected (neither field `Truthy`, contactService.js:18); `MatchWhereMeaning` gives what it accepts |
| Reconciliation.MatchWhereMeaning | src/services/contactService.js:22-30 | the OR filter accepts a row exactly when it carries a supplied email or phone number that is `Truthy` (JavaScript truthiness, contactService.js:25-26) |
| Reconciliation.MatchesSpec | src/services/contactService.js:22-30 | the match set is exactly the matching rows, oldest first, with distinct ids |
| Reconciliation.FirstPrimary | src/services/contactService.js:39 | finds the first primary position, and every earlier row is secondary; no result means every row is secondary |
| Reconciliation.ChosenIndex | src/services/contactService.js:39 | the chosen position is primary exactly when some match is primary; all earlier rows are secondary; a secondary is chosen only at position 0 |
| Reconciliation.DemotionStep | src/services/contactService.js:42-52 | one turn of the loop issues the demoting update exactly when the row is a primary other than the chosen one |
| Reconciliation.LinkedSpec | src/services/contactService.js:76-86 | the re-fetched group is exactly the rows whose id or `linkedId` is the primary's id, in createdAt order, with distinct ids |
| Reconciliation.ColumnsMeaning | src/services/contactService.js:88-89 | a value occurs in the mapped column exactly when some row carries it |
| Reconciliation.PresentMembers | src/services/contactService.js:88-89 | `.filter(Boolean)` keeps exactly the non-empty, non-NULL values |
| Reconciliation.PresentOrder | src/services/contactService.js:88-89 | `.filter(Boolean)` keeps the column's relative order of first occurrences |
| Reconciliation.DistinctPresent | src/services/contactService.js:88-89 | the listed values are duplicate-free, are exactly the non-empty column values, and appear in first-occurrence order |
| Reconciliation.SecondaryIdsMembers | src/services/contactService.js:90-92 | the listed ids are exactly the ids of the secondary rows |
| Reconciliation.SecondaryIdsAreIds | src/services/contactService.js:90-92 | every listed id is the id of a re-fetched row |
| Reconciliation.SecondaryIdsOrder | src/services/contactService.js:90-92 | with distinct ids, each secondary id is listed once, in row order |
| Reconciliation.Consolidate | src/services/contactService.js:88-101 | builds the response from the re-fetched rows; no contract of its own, specified by `Reconciliation.ConsolidateSpec` |
| Reconciliation.ConsolidateSpec | src/services/contactService.js:88-101 | the response carries the primary id; duplicate-free emails and phone numbers that are exactly the group's non-empty values, in first-occurrence order; the secondary ids in row order |
| Reconciliation.ResolveKeepsValid | src/services/contactService.js:34-72 | demotion and insertion keep ids distinct, rows in createdAt order, and the counters ahead |
| Seqs.Dedup | src/services/contactService.js:88-89 | `[...new Set(xs)]` is duplicate-free, has the same members, and keeps first-occurrence order |
| ReconciliationProperties.RejectionLeavesTable | src/services/contactService.js:18-20 | a call fails exactly when neither value is truthy, and then leaves the table as it was |
| ReconciliationProperties.ChosenIsOldestPrimary | src/services/contactService.js:39 | the reported row matches the request; it is the oldest matching primary when one exists, and otherwise the oldest matching row |
| ReconciliationProperties.NoMatchCreatesPrimary | src/services/contactService.js:34-36 | with no match, a primary with the request's values and the next id is appended and reported; with nothing linked to it, the response lists only its own values and no secondaries |
| ReconciliationProperties.DemotionEffect | src/services/contactService.js:42-52 | every old row is either demoted (a matching primary other than the chosen one) or left exactly as it was |
| Reconciliation.Resolve | src/services/contactService.js:34-72 | the table after the resolution steps; no contract of its own, specified by `Reconciliation.ResolveKeepsValid`, `DemotionEffect` and `InsertionRule` |
| Reconciliation.Reconcile | src/services/contactService.js:17-102 | one whole call as a value; no contract of its own: both methods are proved equal to it, and the `ReconciliationProperties` lemmas state what it guarantees |
| ReconciliationProperties.InsertionRule | src/services/contactService.js:54-72 | the table grows by one row exactly when nothing matched or the insertion rule `InsertsSecondary` fires; under the service's rule that is `HasExactPair` false and `EmailKnown` or `PhoneKnown` false (`===` is `StrictEquals`, lines 55-63); the fields of the new row are determined; old rows keep their ids, stamps and values |
| ReconciliationProperties.PoliciesDiffer | index.js:106-120 | the handler's rule (`HasExactPair` false, index.js:107-111) holds whenever the service's does, and additionally exactly when `EmailKnown` and `PhoneKnown` hold but `HasExactPair` does not (contactService.js:55-63) |
| ReconciliationProperties.OmittedFieldAlwaysInserts | src/services/contactService.js:55-63 | an accepted request (one field `Truthy`) with an `undefined` field always grows the table by one row |
| ReconciliationProperties.OmittedFieldRepeatGrows | src/services/contactService.js:55-63 | repeating such an accepted request grows the table again |
| ReconciliationProperties.RepeatAfterCreate | src/services/contactService.js:34-36 | for a request whose fields are all strings or `null` (no `undefined`): after a call that created a primary, the same request resolves to it and changes nothing |
| ReconciliationProperties.RepeatAfterMerge | src/services/contactService.js:38-72 | for a request whose fields are all strings or `null` (no `undefined`): after a call that matched rows, the same request resolves to the same id and changes nothing |
| ReconciliationProperties.RepeatIsStable | src/services/contactService.js:17-102 | a repeated request whose fields are all strings or `null` leaves the table as it was and gets the same response |
| ReconciliationProperties.MatchesDemoted | src/services/contactService.js:42-52 | demotion neither adds rows to nor removes rows from a match set |
| ReconciliationProperties.ResponseDescribesGroup | src/services/contactService.js:76-101 | the response is the consolidation of exactly the rows whose id or `linkedId` is the reported id, oldest first, with distinct ids |
| ReconciliationProperties.ReportedPrimaryMayBeSecondary | src/services/contactService.js:39-72 | when every match is secondary, the oldest match is reported as primary, its id is also listed among the secondary ids, it stays in the table as a secondary, and a row the call inserts is linked to it |
| ReconciliationProperties.LonePrimaryGainsSecondary | src/services/contactService.test.js:20-64 | a lone primary sharing one value with a request that brings a new one gains a linked secondary under either rule; the response lists both rows |
| ReconciliationProperties.NewPhoneIsLinked | src/services/contactService.test.js:20-41 | primary 1 known by email gains secondary 2; the response is primary 1, the one email, the new phone, and secondaries [2] |
| ReconciliationProperties.SoftDeletedPrimaryIsReported | src/services/contactService.test.js:119-146 | a soft-deleted primary 7 is still chosen; the response lists its email before the new one, and secondary 8 |

## Left out

- Database access is a value-level store. Prisma's connection, its failures and the
  `catch` paths that turn them into errors or status-500 replies are not modelled.
- The Express plumbing is not modelled: routing, JSON parsing and the status codes
  other than the 400 rejection. The controllers, routes and `app.js` are not part of
  this model.
- Every `await` is taken as one atomic step, and calls never interleave. Two
  concurrent requests can create duplicate primaries; that race is outside the model.
- `Date` stamps are a counter (`clock`) that grows on each insert. The database orders
  rows with equal `createdAt` in an unspecified way; here such ties fall in store order.
- The handler's final `findMany` has no `orderBy`. It is modelled as returning store
  order, which in this model is `createdAt` order.
- An `update` whose id is missing fails in Prisma. The demotion loop only updates ids
  taken from rows it has just read, so no such call happens here, and `Update` leaves
  the rows unchanged in that case.
- Request fields that are neither strings, `null` nor missing (numbers, objects) are
  not modelled. Prisma rejects such a value for a string column, and the call then
  fails; that failure path is not modelled.
- Logging (`console.error`, the start-up message) and the health-check route are not
  modelled.
- ContactStore.Store.Seeded: a store opened on existing data is required to be a valid
  table. How rows reach the database outside these calls is not modelled.
- ContactService.GetFilteredContacts: `findMany` without `orderBy` is taken to return
  store order; the database promises no order.
- IdentifyHandler.Identify: the 400 status and the JSON error body are represented by
  the `MissingContactInfo` result.
