# HubSpot ticket mirror: ingestion, assignment and updates in Dafny

This project models the decision logic of an Express/MongoDB service that
mirrors HubSpot support tickets into a local ticket collection:

- **Ingestion and least-busy assignment** (`getTicketById` in
  `src/controllers/hubspotController.js`). The handler validates the id and
  fetches the HubSpot ticket. It extracts owner, title, description and stage
  with `??`/`||` fallback chains and finds the employees of that owner. If a
  local ticket already mirrors the HubSpot id, it returns that ticket without
  writing. Otherwise it counts each candidate's tickets whose status is `'open'`
  or `'in progress'`, stably sorts the candidates by (count, creation time) and
  inserts exactly one ticket. That ticket goes to the first candidate, or to
  nobody when there are none.
- **The update state machine** (`updateTicketStatusAndNote` in
  `src/controllers/ticketController.js`). An empty request is rejected, then an
  unknown ticket. A truthy status is pushed to HubSpot before it is set locally.
  A status loosely equal to 4 with a file leads to upload, note, association,
  and one attachment plus one note appended. Otherwise a note message leads to
  note, association, and one note appended. There is a single save at the end.
- **The read paths** of the same file: the pagination arithmetic and
  newest-first listing of `getTicketsByEmployee`, and `getTicketDetail`. Both
  attach the status label from `src/config/ticketStatusConfig.js`.
- **The ticket record** of `src/models/Ticket.js`: its fields, the status enum
  and default, the required strings, and the embedded attachment and note
  sequences.

HubSpot calls are abstract operations. Each one either answers or throws, and
its answer is an input to the model. The update handler also returns the
sequence of HubSpot write calls it issued. The store is a sequence of tickets
in natural order. Each handler is a pure function from the old store to a
response and a new store. The ingestion handler's database transaction is
therefore one atomic step, up to the commit.

Modules, one file each: `Results` (Option/Result), `Seqs` (first match,
filter, count), `Js` (truthiness, `String(v)`, StringToNumber and the loose
`== 4`), `StatusConfig`, `TicketSchema`, `EmployeeDirectory`,
`HubspotService`, `Assignment`, `Ingestion`, `TicketUpdate` and
`TicketQueries`.

Behaviour of the code worth knowing, which the model keeps as written:

- The load count matches only the literal status strings `'open'` and
  `'in progress'`. The schema types `status` as a number in 1..4
  (`src/models/Ticket.js:13-16`). Ingestion passes the HubSpot stage string
  (default `'new'`) to the ticket constructor (`hubspotController.js:86`); the
  model stores it as given, because Mongoose's casting is left out (see below).
  Both facts are kept as written. In a store whose statuses are all
  schema numbers, nobody is ever busy, and assignment degenerates to
  "earliest-created candidate". `Ingestion.IngestIntoSchemaStoreAssignsEarliest`
  proves this.
- No unique index exists on `hubspotTicketId`, and no retry exists on a
  duplicate-key error. "At most one ticket per HubSpot id" rests on the
  handler's own check alone (`Ingestion.IngestKeepsHubspotIdsUnique`).
- The synthesized title is `HS Ticket <id>`.
- A HubSpot fetch that fails, including HubSpot answering 404, throws in the
  service wrapper. The handler then reports a server error, not "not found".
  "Not found" only arises when the answer is empty or has no id.
- The file branch is entered when the status is loosely equal to the number 4,
  so `"4"`, `" 4 "`, `"4.0"` and `"0x4"` all enter it. The label "Closed"
  plays no part in the decision.
- After the commit, the handler re-reads the new ticket with its assignee
  populated. If that re-read throws, the abort of the already committed
  transaction fails, and the handler answers 500. The ticket stays stored, so
  a retry returns it (`Ingestion.RetryAfterReadBackFailure`).

## Model

| member | source | states |
|---|---|---|
| `Js.NatToDecimalValue` | src/services/hubspotService.js:115 | Reading back the decimal spelling `String(n)` of a natural number gives `n` |
| `Js.StringToNumberOfDecimal` | src/services/hubspotService.js:115 | `Number(String(n))` is exactly `n` for every integer, negative ones included |
| `Js.LooselyEqualsViaString` | src/controllers/ticketController.js:155 | `status == k` holds exactly when the stringified status HubSpot receives reads back as the number `k` |
| `Js.LooseEqualityExamples` | src/controllers/ticketController.js:155 | `4`, `"4"`, `" 4\n"`, `"+4"`, `"4.0"` and `"0x4"` are loosely equal to 4; `"4 tickets"`, `"Closed"` and `1` are not |
| `StatusConfig.FindStatus` | src/config/ticketStatusConfig.js:11 | The first-match search finds an entry exactly when some entry's id is strictly equal to the argument |
| `StatusConfig.GetStatusLabel` | src/config/ticketStatusConfig.js:10-12 | Ids 1..4 get their table label; every other value, strings included, gets "Unknown"; total |
| `StatusConfig.TableShape` | src/config/ticketStatusConfig.js:2-7 | Exactly four entries with ids 1..4, pairwise distinct, labelled New, Waiting on contact, Waiting on us, Closed |
| `StatusConfig.LabelOfEveryEntry` | src/config/ticketStatusConfig.js:2-12 | Looking up any entry's id returns that entry's label, and no label is "Unknown" |
| `StatusConfig.StringStatusIsUnknown` | src/config/ticketStatusConfig.js:11 | A status held as a string (the stage string ingestion passes to the constructor, kept as given since Mongoose casting is not modelled) is labelled "Unknown" under strict equality |
| `TicketSchema.FindById` | src/controllers/ticketController.js:140 | The lookup returns a ticket with the requested id, and returns none exactly when no ticket has it |
| `TicketSchema.NewTicketDefaults` | src/models/Ticket.js:13-16 | A ticket built without a status gets 1, which the enum admits; a supplied status is kept; attachments and notes start empty |
| `TicketSchema.StringStatusNotAllowed` | src/models/Ticket.js:13-16 | A stage string is never one of the schema's enumerated numeric statuses |
| `EmployeeDirectory.Candidates` | src/controllers/hubspotController.js:33-36 | Candidates are exactly the directory employees whose ownerId equals the owner id, and there are none for a missing or empty owner id |
| `EmployeeDirectory.CandidatesKeepOrder` | src/controllers/hubspotController.js:35 | The candidate filter keeps directory order (it distributes over concatenation) |
| `Assignment.ActiveCount` | src/controllers/hubspotController.js:59-66 | The count is 0 exactly when no ticket is assigned to the employee with status 'open' or 'in progress' |
| `Assignment.ActiveCountAfterInsert` | src/controllers/hubspotController.js:59-62 | One more ticket raises an employee's count by one exactly when it is theirs and active |
| `Assignment.SortByLoad` | src/controllers/hubspotController.js:69-77 | The sorted candidates are a permutation of the input, ordered by (count, creation time) |
| `Assignment.SortEmployees` | src/controllers/hubspotController.js:69-77 | Sorting in place reorders the candidate employees without adding or dropping any, so the `employees` of a creation reply are the owner's candidates |
| `Assignment.RankOfSorted` | src/controllers/hubspotController.js:69-77 | Every sorted entry is a ranked candidate, so the employees of the sorted list, ranked again, are in (count, creation time) order |
| `Assignment.FirstMin` | src/controllers/hubspotController.js:69-79 | Reference winner: its key is no later than any other, and every earlier position's key is strictly later |
| `Assignment.SortHeadIsFirstMin` | src/controllers/hubspotController.js:69-79 | The head of the stable sort is the first minimal candidate in input order |
| `Assignment.LeastBusyUnique` | src/controllers/hubspotController.js:69-79 | At most one position satisfies the least-busy policy, so the winner is determined |
| `Assignment.AssigneeIsLeastBusy` | src/controllers/hubspotController.js:54-80 | No assignee exactly when there are no candidates; otherwise the assignee is the least-busy candidate, with ties going to the earliest-created one and then to directory order |
| `Assignment.NoActiveMeansEarliest` | src/controllers/hubspotController.js:69-79 | If no stored status is active, the assignee is the earliest-created candidate, with directory order breaking ties |
| `Assignment.SchemaStatusesNeverActive` | src/controllers/hubspotController.js:60 | A status the schema admits (a number 1..4) never matches the active strings |
| `Assignment.LeastBusyExample` | src/controllers/hubspotController.js:54-80 | E1 with two active tickets, E2 and E3 with none, E3 created before E2: E3 is assigned |
| `HubspotService.StatusPayload` | src/services/hubspotService.js:112-116 | The pushed stage is `String(status)`: a string is sent unchanged; a number is sent in canonical decimal (digits without a leading zero or plus sign, a minus for negatives) that reads back as itself |
| `HubspotService.NoteIdOf` | src/services/hubspotService.js:128-147 | Note creation succeeds exactly when the call answered with a non-empty id, and yields that id |
| `Ingestion.FirstPresent` | src/controllers/hubspotController.js:27 | The `??` chain yields the first property that is not null/undefined (even an empty string), or none when all are missing |
| `Ingestion.FirstTruthy` | src/controllers/hubspotController.js:28-30 | The `\|\|` chain yields the first non-empty property, or the fallback when every one is missing or empty |
| `Ingestion.ExtractFields` | src/controllers/hubspotController.js:26-30 | The owner is hubspot_owner_id ?? ownerId ?? owner. The title is subject \|\| title \|\| "HS Ticket id", the description is content \|\| description \|\| "Test description", and the stage is hs_pipeline_stage \|\| "new". The last three are never empty |
| `Ingestion.EmptyOwnerSelectsNobody` | src/controllers/hubspotController.js:27-36 | An empty hubspot_owner_id is kept by `??` and selects no employees |
| `Ingestion.FindByHubspotId` | src/controllers/hubspotController.js:40 | The idempotency lookup finds a ticket with that HubSpot id, and returns none exactly when no ticket has it |
| `Ingestion.Ingest` | src/controllers/hubspotController.js:6-111 | A missing id gives 400, a thrown fetch 500 and an answer without an id 404, none writing. An existing ticket is returned with no write. Otherwise the call succeeds exactly when the insert commits and is re-read, and then appends exactly one ticket with the HubSpot id. A failed insert aborts and leaves the store unchanged. A failed re-read after the commit answers 500 with the ticket already stored; every other error leaves the store unchanged. Whenever the store grows, it grows by one ticket with the HubSpot id, for a HubSpot id not yet stored. The returned employees are the owner's candidates: as filtered for an existing ticket; for a created one, the same candidates in (count, creation time) order, with the assignee first |
| `Ingestion.FindAfterInsert` | src/controllers/hubspotController.js:88-91 | After the insert, the idempotency lookup finds the new ticket |
| `Ingestion.IngestKeepsHubspotIdsUnique` | src/controllers/hubspotController.js:39-52 | If no two tickets share a HubSpot id before ingestion, none do after |
| `Ingestion.RetryAfterReadBackFailure` | src/controllers/hubspotController.js:94-109 | After a re-read failure the ticket is stored, so a retry returns it and creates no second ticket |
| `Ingestion.IngestIsIdempotent` | src/controllers/hubspotController.js:39-52 | A second call for an already answered HubSpot id writes nothing and returns the same ticket and assignee |
| `Ingestion.IngestAssignsLeastBusy` | src/controllers/hubspotController.js:54-89 | The appended ticket, whether the re-read then succeeds or fails, is the reply's ticket on success; it is unassigned exactly when there are no candidates, and otherwise goes to the least-busy candidate |
| `Ingestion.IngestCreatesExtractedTicket` | src/controllers/hubspotController.js:83-89 | The appended ticket, on either re-read outcome, carries the extracted title, description and stage, the new id and time, no notes, attachments or attachment link, and all required strings |
| `Ingestion.IngestLoadEffect` | src/controllers/hubspotController.js:59-91 | Appending a ticket raises only its assignee's load, by one exactly when the stage string is active |
| `Ingestion.IngestIntoSchemaStoreAssignsEarliest` | src/controllers/hubspotController.js:59-79 | Over a store of schema-valid statuses, the appended ticket goes to the earliest-created candidate |
| `TicketUpdate.Update` | src/controllers/ticketController.js:127-205 | An empty request is rejected with no calls and no write, and an unknown id likewise. The push is the first call and precedes the status change. A failed push issues nothing else and writes nothing. Any error leaves the store unchanged. For a found ticket the update succeeds exactly when every HubSpot call it makes answers and the save succeeds; otherwise a HubSpot failure or a persistence failure is reported. On success only the found ticket changes, its identity is kept, and notes and attachments only grow at the end |
| `TicketUpdate.AppendNotes` | src/controllers/ticketController.js:154-186 | The file or note step succeeds exactly when every HubSpot call of the branch taken answers usefully, and otherwise reports a HubSpot failure; on success the ticket keeps its identity and status, and its notes and attachments only grow at the end |
| `TicketUpdate.FileBranchFailureTraces` | src/controllers/ticketController.js:149-176 | After a successful push, a failed upload issues only the upload; a failed note creation issues the upload and the note; a failed association all three. Each answers HubspotFailed with no write |
| `TicketUpdate.NoteBranchFailureTraces` | src/controllers/ticketController.js:149-186 | After a successful push, a failed note creation issues only the note, a failed association the note and the association; each answers HubspotFailed with no write |
| `TicketUpdate.FileBranchAppendsAttachmentAndNote` | src/controllers/ticketController.js:155-176 | Status 4 with a file issues upload, note and association once each, after the push. It appends one attachment and one note, whose message is `noteMessage \|\| "File attached"` and whose URL is the upload's |
| `TicketUpdate.NoteBranchAppendsOneNote` | src/controllers/ticketController.js:177-186 | Otherwise a note message creates and associates one note and appends exactly one note; no upload and no attachment |
| `TicketUpdate.NoBranchAppendsNothing` | src/controllers/ticketController.js:154-189 | Without either branch (e.g. a file without status 4 and without a message) nothing is appended and only the push, if any, is issued |
| `TicketUpdate.UpdateAppendsAtMostOne` | src/controllers/ticketController.js:155-189 | An update adds at most one note and at most one attachment, and adds an attachment only in the file branch |
| `TicketUpdate.FailedSaveKeepsHubspotWrites` | src/controllers/ticketController.js:189-204 | A failing save leaves the store unchanged but issues exactly the HubSpot calls of the successful run (the orphaned-note window) |
| `TicketUpdate.UpdateTouchesOnlyItsTicket` | src/controllers/ticketController.js:140-189 | With unique document ids, every other ticket is untouched, every ticket's identity fields are kept, and ids stay unique |
| `TicketQueries.TotalPages` | src/controllers/ticketController.js:65 | `Math.ceil(total/limit)` is the least integer not below the quotient (for either sign of limit); a zero limit gives a non-finite (null) value |
| `TicketQueries.SortNewestFirst` | src/controllers/ticketController.js:47 | The listing is a permutation of its input ordered by createdAt descending |
| `TicketQueries.Listing` | src/controllers/ticketController.js:46-47 | The listing holds exactly the employee's tickets, newest first |
| `TicketQueries.Window` | src/controllers/ticketController.js:48-49 | The window is empty past the end; otherwise its k-th ticket is the `skip+k`-th of the input, and it holds `min(limit, remaining)` tickets for a positive limit, all remaining ones for limit 0 and `min(-limit, remaining)` for a negative limit |
| `TicketQueries.PageData` | src/controllers/ticketController.js:46-56 | The page is the labelled run of the employee's newest-first listing that starts after `skip` tickets, with `min(limit, remaining)` entries (all remaining for limit 0) and none past the end |
| `TicketQueries.GetTicketsByEmployee` | src/controllers/ticketController.js:29-68 | A missing id gives 400, and a page/limit pair with negative skip `(page-1)*limit` fails. Otherwise the reply echoes page and limit (defaults 1 and 10), counts all of the employee's tickets, gives totalPages as the ceiling and returns positions `skip .. skip+limit` of the newest-first listing, each with its label |
| `TicketQueries.FirstPagesArePrefix` | src/controllers/ticketController.js:41-49 | The first `n` pages read back to back are the first `n*limit` tickets of the listing |
| `TicketQueries.PagesCover` | src/controllers/ticketController.js:41-65 | Pages 1..totalPages together give the whole listing once, and a page is non-empty exactly when its number is at most totalPages |
| `TicketQueries.PagesCoverListing` | src/controllers/ticketController.js:41-65 | The same for an employee's listing: every ticket appears on exactly one of pages 1..totalPages |
| `TicketQueries.ReplyDataIsWindow` | src/controllers/ticketController.js:41-56 | The tickets of a listing reply are exactly the window of the newest-first listing that its page and limit select |
| `TicketQueries.ReplyNonEmptyUpToTotalPages` | src/controllers/ticketController.js:41-65 | With a positive limit, a reply's page is non-empty exactly when its number is at most the totalPages it reports |
| `TicketQueries.GetTicketDetail` | src/controllers/ticketController.js:82-123 | A missing id gives 400. "Not found" occurs exactly when no ticket has the id. Those are the only errors, so a stored ticket is always returned, with its status label |

## Left out

- HTTP routing, Express middleware, multer, start-up and configuration (`index.js`, `src/routes/*.js`, `src/config/index.js`) are not modelled. Responses are Result values, not status codes or JSON bodies, and logging is dropped.
- The HubSpot HTTP requests of `src/services/hubspotService.js` are not modelled. Each call is an input that answers or throws. `getTicketPipelineStages`, `getContacts`, `getOwnerById`, `createTicket` and `updateTicket` are plain network requests that neither handler modelled here calls.
- MongoDB sessions, transaction isolation and the concurrent-duplicate race are not modelled. A handler is one atomic step, so two interleaved ingestions of the same new HubSpot id cannot be expressed.
- Ingestion: only the insert's failure and the failure of the re-read after the commit are modelled. Failures of the employee lookup, the `findOne` and the count aggregation would abort the same way with no insert. On the existing-ticket path, the `findById(...).populate` re-read (`src/controllers/hubspotController.js:43`) and the commit (`:44`) are taken to succeed, so `Ingest` always answers Ok there.
- `populate`, `toObject`, and Mongoose's casting and validation at save time are library behaviour and are not modelled. A stored status is whatever was written: a HubSpot stage string from ingestion, or the request's value from an update. Mongoose would try to cast it to a number and check the enum at save. That save-time rejection of non-numeric stages is therefore not part of the model.
- `Date.now`, ObjectId generation and the `timestamps` option are not modelled. Creation times, the new ticket's id and the note/attachment stamps are parameters, and `updatedAt` is not tracked. Ingestion does not check that the new id is fresh.
- Js.IntToDecimal: numbers are unbounded integers spelt in plain decimal. The exponent form `String` gives from 10^21 on, and the loss of precision beyond 2^53, are not modelled.
- Malformed ObjectIds are not modelled: they make `findById` and the `assignedTo` query throw a cast error. Ids are plain strings, and an unknown one is simply not found.
- The HubSpot property bag holds strings or null. Numeric property values, and `String(ownerId)` of a number, are not modelled. HubSpot's API returns property values as strings.
- Request bodies: `status` is an integral JSON number or a string. Booleans, fractional numbers, arrays and objects are not modelled. StringToNumber's result is compared exactly, without rounding to double precision, so strings that equal 4 only after rounding are not recognised.
- Pagination: `page` and `limit` are taken as already parsed integers (None when absent). The `parseInt` of query strings is not modelled, and neither is the fact that `Math.ceil(total / limit)` coerces the raw string with `Number` rather than `parseInt`.
- Pagination relies on assumed MongoDB semantics: a negative skip is rejected, a limit of 0 means no limit, and a negative limit returns its magnitude.
- TicketQueries.SortNewestFirst: the order of tickets with equal `createdAt` is left as the stable insertion order. MongoDB does not specify it, and the contracts only claim newest-first order and a permutation.
- Employee records keep only the id, `ownerId`, `createdAt` and the id's embedded timestamp. `src/models/Employee.js` is not part of this model. Name, email, role and the password exclusion (`-password`) are not modelled.
- Uploaded files keep only their original name. The upload's bytes, folder path and access options are not modelled.
- The `getTicketStatusList` handler (`src/controllers/ticketController.js:7-25`) only relays HubSpot's pipeline stages and is not modelled. `src/controllers/employeeController.js` (a plain listing), `seed.js` (hashing and reset) and `src/models/Contact.js` (neither handler modelled here reads contacts) are not modelled either.
