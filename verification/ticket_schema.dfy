/** The stored ticket record: its fields, the embedded attachment and note
    sequences, and what the document schema validates. */
module TicketSchema {
  import opened Results
  import opened Seqs
  import opened Js

  /** Document identifiers, compared as strings. */
  type EmployeeId = string
  type TicketId = string

  /** A file uploaded to HubSpot and recorded on the ticket. */
  datatype Attachment = Attachment(hubspotFileId: string, url: string, fileName: string, uploadedAt: int)

  /** A HubSpot note mirrored on the ticket; `attachmentUrl` is set when the
      note was created for an uploaded file. */
  datatype Note = Note(
    hubspotNoteId: string,
    message: string,
    attachmentUrl: Option<string>,
    addedBy: Option<EmployeeId>,
    addedAt: int)

  /** A ticket document. `status` holds whatever was written to it: a number
      from an update request, or the HubSpot stage string written on ingestion. */
  datatype Ticket = Ticket(
    id: TicketId,
    title: string,
    description: string,
    status: JsVal,
    assignedTo: Option<EmployeeId>,
    hubspotTicketId: string,
    attachmentLink: Option<string>,
    attachments: seq<Attachment>,
    notes: seq<Note>,
    createdAt: int)

  /** The ticket collection, in natural (insertion) order. */
  type Store = seq<Ticket>

  /** The document with id `ticketId`, as `findById` looks it up. */
  function FindById(store: Store, ticketId: TicketId): (r: Option<nat>)
    ensures r.Some? ==> r.value < |store| && store[r.value].id == ticketId
    ensures r.None? <==> forall j :: 0 <= j < |store| ==> store[j].id != ticketId
  {
    FirstIndex(store, (t: Ticket) => t.id == ticketId)
  }

  /** The values the schema's `enum` admits for `status`, and its default. */
  const StatusEnum: set<int> := {1, 2, 3, 4}
  const DefaultStatus: JsVal := JNum(1)

  predicate StatusAllowed(v: JsVal) {
    v.JNum? && v.n in StatusEnum
  }

  /** A required string path rejects a missing or empty value. */
  predicate RequiredPresent(s: string) {
    s != ""
  }

  /** The document passes the schema's validators: the three required
      strings are non-empty and the status is one of the enumerated numbers.
      `assignedTo`, `attachmentLink` and every embedded field are optional. */
  predicate SatisfiesSchema(t: Ticket) {
    && RequiredPresent(t.title)
    && RequiredPresent(t.description)
    && RequiredPresent(t.hubspotTicketId)
    && StatusAllowed(t.status)
  }

  /** A new document as the model constructor builds it: `status` falls back
      to the default, the embedded sequences start empty. */
  function NewTicket(
    id: TicketId, title: string, description: string, status: Option<JsVal>,
    assignedTo: Option<EmployeeId>, hubspotTicketId: string, now: int): Ticket
  {
    Ticket(id, title, description, status.GetOr(DefaultStatus), assignedTo,
           hubspotTicketId, None, [], [], now)
  }

  /** A ticket built without a status gets status 1, which the enum admits,
      so it passes validation exactly when its required strings are present;
      a supplied status is kept as given. */
  lemma NewTicketDefaults(
    id: TicketId, title: string, description: string, status: Option<JsVal>,
    assignedTo: Option<EmployeeId>, hubspotTicketId: string, now: int)
    ensures var t := NewTicket(id, title, description, status, assignedTo, hubspotTicketId, now);
      && (status.None? ==> t.status == JNum(1) && StatusAllowed(t.status))
      && (status.Some? ==> t.status == status.value)
      && (status.None? ==> (SatisfiesSchema(t) <==> title != "" && description != "" && hubspotTicketId != ""))
      && t.attachments == [] && t.notes == [] && t.createdAt == now
  {
  }

  /** A stage name stored as a string is outside the numeric enum. */
  lemma StringStatusNotAllowed(s: string)
    ensures !StatusAllowed(JStr(s))
  {
  }
}
