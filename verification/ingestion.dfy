/** Ingestion of a HubSpot ticket: validate the id, fetch the ticket, extract
    its fields, find the candidate employees, return the existing local ticket
    if there is one, and otherwise create exactly one ticket assigned to the
    least-busy candidate. The whole handler is one atomic step from the old
    store to the new one, as its database transaction makes it. */
module Ingestion {
  import opened Results
  import opened Seqs
  import opened Js
  import opened TicketSchema
  import opened EmployeeDirectory
  import opened Assignment
  import opened HubspotService

  // ---------------------------------------------------------------------------
  // Field extraction

  /** Reading a property: absent keys and `null` both give None. */
  function Prop(p: Properties, key: string): Option<string> {
    if key in p then p[key] else None
  }

  /** `p[k0] ?? p[k1] ?? ...`: the first property that is neither `null` nor
      `undefined`, even an empty string; None when all are missing. */
  function FirstPresent(p: Properties, keys: seq<string>): (r: Option<string>)
    ensures r.Some? ==>
      exists i :: 0 <= i < |keys| && Prop(p, keys[i]) == r && forall j :: 0 <= j < i ==> Prop(p, keys[j]).None?
    ensures r.None? <==> forall i :: 0 <= i < |keys| ==> Prop(p, keys[i]).None?
  {
    if |keys| == 0 then None
    else if Prop(p, keys[0]).Some? then Prop(p, keys[0])
    else
      var r := FirstPresent(p, keys[1..]);
      assert forall i :: 1 <= i < |keys| ==> keys[1..][i - 1] == keys[i];
      r
  }

  /** `p[k0] || p[k1] || ... || fallback`: the first non-empty property, or
      the fallback when every one is missing or empty. */
  function FirstTruthy(p: Properties, keys: seq<string>, fallback: string): (r: string)
    ensures (exists i :: 0 <= i < |keys| && TruthyStr(Prop(p, keys[i]))) ==>
      exists i :: 0 <= i < |keys| && Prop(p, keys[i]) == Some(r) && r != ""
        && forall j :: 0 <= j < i ==> !TruthyStr(Prop(p, keys[j]))
    ensures (forall i :: 0 <= i < |keys| ==> !TruthyStr(Prop(p, keys[i]))) ==> r == fallback
  {
    if |keys| == 0 then fallback
    else if TruthyStr(Prop(p, keys[0])) then Prop(p, keys[0]).value
    else
      var r := FirstTruthy(p, keys[1..], fallback);
      assert forall i :: 1 <= i < |keys| ==> keys[1..][i - 1] == keys[i];
      r
  }

  const OwnerKeys: seq<string> := ["hubspot_owner_id", "ownerId", "owner"]
  const TitleKeys: seq<string> := ["subject", "title"]
  const DescriptionKeys: seq<string> := ["content", "description"]
  const StageKeys: seq<string> := ["hs_pipeline_stage"]
  const DefaultDescription: string := "Test description"
  const DefaultStage: string := "new"

  function DefaultTitle(hubspotId: string): string {
    "HS Ticket " + hubspotId
  }

  /** The fields a local ticket is built from. */
  datatype Fields = Fields(ownerId: Option<string>, title: string, description: string, stage: string)

  /** Extracts the owner with `??` and the other fields with `||`; a missing
      property bag reads as empty. Title, description and stage are never
      empty, so a ticket built from them has its required strings. */
  function ExtractFields(hubspotId: string, properties: Option<Properties>): (f: Fields)
    ensures var p := properties.GetOr(map[]);
      && (Prop(p, "hubspot_owner_id").Some? ==> f.ownerId == Prop(p, "hubspot_owner_id"))
      && (Prop(p, "hubspot_owner_id").None? && Prop(p, "ownerId").Some? ==> f.ownerId == Prop(p, "ownerId"))
      && (Prop(p, "hubspot_owner_id").None? && Prop(p, "ownerId").None? ==> f.ownerId == Prop(p, "owner"))
    ensures var p := properties.GetOr(map[]);
      && (TruthyStr(Prop(p, "subject")) ==> f.title == Prop(p, "subject").value)
      && (!TruthyStr(Prop(p, "subject")) && TruthyStr(Prop(p, "title")) ==> f.title == Prop(p, "title").value)
      && (!TruthyStr(Prop(p, "subject")) && !TruthyStr(Prop(p, "title")) ==> f.title == DefaultTitle(hubspotId))
    ensures var p := properties.GetOr(map[]);
      && (TruthyStr(Prop(p, "content")) ==> f.description == Prop(p, "content").value)
      && (!TruthyStr(Prop(p, "content")) && TruthyStr(Prop(p, "description")) ==> f.description == Prop(p, "description").value)
      && (!TruthyStr(Prop(p, "content")) && !TruthyStr(Prop(p, "description")) ==> f.description == DefaultDescription)
    ensures var p := properties.GetOr(map[]);
      f.stage == (if TruthyStr(Prop(p, "hs_pipeline_stage")) then Prop(p, "hs_pipeline_stage").value else DefaultStage)
    ensures f.title != "" && f.description != "" && f.stage != ""
  {
    var p := properties.GetOr(map[]);
    assert OwnerKeys[1..] == ["ownerId", "owner"] && ["ownerId", "owner"][1..] == ["owner"];
    assert ["owner"][1..] == [] && FirstPresent(p, ["owner"]) == Prop(p, "owner");
    assert FirstPresent(p, ["ownerId", "owner"]) ==
      if Prop(p, "ownerId").Some? then Prop(p, "ownerId") else Prop(p, "owner");
    assert TitleKeys[1..] == ["title"] && DescriptionKeys[1..] == ["description"];
    assert ["title"][1..] == [] && ["description"][1..] == [];
    assert FirstTruthy(p, ["title"], DefaultTitle(hubspotId)) ==
      if TruthyStr(Prop(p, "title")) then Prop(p, "title").value else DefaultTitle(hubspotId);
    assert FirstTruthy(p, ["description"], DefaultDescription) ==
      if TruthyStr(Prop(p, "description")) then Prop(p, "description").value else DefaultDescription;
    Fields(
      FirstPresent(p, OwnerKeys),
      FirstTruthy(p, TitleKeys, DefaultTitle(hubspotId)),
      FirstTruthy(p, DescriptionKeys, DefaultDescription),
      FirstTruthy(p, StageKeys, DefaultStage))
  }

  /** `??` keeps an empty `hubspot_owner_id`, which then selects no employees
      even when a later owner property names one. */
  lemma EmptyOwnerSelectsNobody(hubspotId: string, p: Properties, directory: seq<Employee>)
    requires "hubspot_owner_id" in p && p["hubspot_owner_id"] == Some("")
    ensures ExtractFields(hubspotId, Some(p)).ownerId == Some("")
    ensures Candidates(directory, ExtractFields(hubspotId, Some(p)).ownerId) == []
  {
  }

  // ---------------------------------------------------------------------------
  // The handler

  /** Position of the local ticket mirroring HubSpot ticket `hubspotId`, in natural order. */
  function FindByHubspotId(store: Store, hubspotId: string): (r: Option<nat>)
    ensures r.Some? ==> r.value < |store| && store[r.value].hubspotTicketId == hubspotId
    ensures r.None? <==> forall j :: 0 <= j < |store| ==> store[j].hubspotTicketId != hubspotId
  {
    FirstIndex(store, (t: Ticket) => t.hubspotTicketId == hubspotId)
  }

  datatype IngestError =
    | MissingTicketId        // 400
    | HubspotTicketNotFound  // 404
    | HubspotFetchFailed     // 500: the fetch threw
    | PersistenceFailed      // 500: the insert threw; the transaction is aborted
    | ReadBackFailed         // 500: the committed ticket could not be re-read; the insert stays

  /** How the insert of a new ticket goes: committed and re-read, the insert
      (or commit) throws and the transaction is aborted, or the commit
      succeeds and the re-read with the assignee populated throws; the abort
      that follows fails on a committed transaction, so the ticket stays. */
  datatype InsertAnswer = Committed | InsertThrew | ReadBackThrew

  /** The answer: whether a ticket was created, the local ticket, the HubSpot
      ticket and the candidate employees (sorted by load when a ticket was created,
      since the handler sorts them in place). */
  datatype IngestReply = IngestReply(created: bool, ticket: Ticket, hubspot: HsTicket, employees: seq<Employee>)

  /** The response together with the store after the handler's transaction. */
  datatype IngestOutcome = IngestOutcome(response: Result<IngestReply, IngestError>, store: Store)

  /** The HubSpot ticket the fetch produced, when it has a usable id. */
  predicate Found(fetched: Reply<Option<HsTicket>>) {
    fetched.Answered? && fetched.value.Some? && TruthyStr(fetched.value.value.id)
  }

  function HubspotIdOf(fetched: Reply<Option<HsTicket>>): string
    requires Found(fetched)
  {
    fetched.value.value.id.value
  }

  function EmployeeIdOf(e: Option<Employee>): Option<EmployeeId> {
    if e.Some? then Some(e.value.id) else None
  }

  /** The ingestion handler. `fetched` is HubSpot's answer to the ticket
      fetch, `newId` and `now` the id and creation time of a new document,
      and `insert` how its insert and re-read go. */
  function Ingest(
    ticketId: string, fetched: Reply<Option<HsTicket>>, directory: seq<Employee>,
    store: Store, newId: TicketId, now: int, insert: InsertAnswer): (o: IngestOutcome)
    ensures ticketId == "" ==> o == IngestOutcome(Err(MissingTicketId), store)
    ensures ticketId != "" && fetched.Threw? ==> o == IngestOutcome(Err(HubspotFetchFailed), store)
    ensures ticketId != "" && fetched.Answered? && !Found(fetched) ==>
      o == IngestOutcome(Err(HubspotTicketNotFound), store)
    ensures o.response.Err? && o.response.error != ReadBackFailed ==> o.store == store
    ensures o.response == Err(ReadBackFailed) ==>
      && ticketId != "" && Found(fetched) && insert == ReadBackThrew
      && FindByHubspotId(store, HubspotIdOf(fetched)).None?
      && |o.store| == |store| + 1 && o.store[..|store|] == store
      && o.store[|store|].hubspotTicketId == HubspotIdOf(fetched)
    ensures o.response.Ok? ==>
      && ticketId != "" && Found(fetched)
      && o.response.value.hubspot == fetched.value.value
      && o.response.value.ticket.hubspotTicketId == HubspotIdOf(fetched)
    ensures o.response.Ok? && !o.response.value.created ==>
      o.store == store && o.response.value.ticket in store
    ensures o.response.Ok? && o.response.value.created ==>
      && insert == Committed
      && o.store == store + [o.response.value.ticket]
      && FindByHubspotId(store, HubspotIdOf(fetched)).None?
    ensures o.store != store ==>
      && ticketId != "" && Found(fetched) && insert != InsertThrew
      && FindByHubspotId(store, HubspotIdOf(fetched)).None?
      && |o.store| == |store| + 1 && o.store == store + [o.store[|store|]]
      && o.store[|store|].hubspotTicketId == HubspotIdOf(fetched)
    ensures o.response.Ok? && !o.response.value.created ==>
      o.response.value.employees == Candidates(directory, FieldsOf(fetched).ownerId)
    ensures o.response.Ok? && o.response.value.created ==>
      && multiset(o.response.value.employees) == multiset(Candidates(directory, FieldsOf(fetched).ownerId))
      && SortedByLoad(Rank(o.response.value.employees, store))
      && (|o.response.value.employees| > 0 ==>
            o.response.value.ticket.assignedTo == Some(o.response.value.employees[0].id))
    ensures Found(fetched) && ticketId != "" && FindByHubspotId(store, HubspotIdOf(fetched)).Some? ==>
      o.response.Ok? && !o.response.value.created
    ensures Found(fetched) && ticketId != "" && FindByHubspotId(store, HubspotIdOf(fetched)).None? ==>
      && (o.response.Ok? <==> insert == Committed)
      && (insert == Committed ==> o.response.value.created)
      && (insert == InsertThrew ==> o == IngestOutcome(Err(PersistenceFailed), store))
      && (insert == ReadBackThrew ==> o.response == Err(ReadBackFailed))
  {
    if ticketId == "" then IngestOutcome(Err(MissingTicketId), store)
    else if fetched.Threw? then IngestOutcome(Err(HubspotFetchFailed), store)
    else if !Found(fetched) then IngestOutcome(Err(HubspotTicketNotFound), store)
    else
      var hs := fetched.value.value;
      var hubspotId := hs.id.value;
      var f := ExtractFields(hubspotId, hs.properties);
      var candidates := Candidates(directory, f.ownerId);
      match FindByHubspotId(store, hubspotId)
      case Some(i) =>
        IngestOutcome(Ok(IngestReply(false, store[i], hs, candidates)), store)
      case None =>
        var t := NewTicket(newId, f.title, f.description, Some(JStr(f.stage)),
                           EmployeeIdOf(Assignee(candidates, store)), hubspotId, now);
        match insert
        case InsertThrew => IngestOutcome(Err(PersistenceFailed), store)
        case ReadBackThrew => IngestOutcome(Err(ReadBackFailed), store + [t])
        case Committed =>
          SortEmployees(Rank(candidates, store));
          EmployeesOfRank(candidates, store);
          RankOfSorted(candidates, store);
          IngestOutcome(Ok(IngestReply(true, t, hs, Employees(SortByLoad(Rank(candidates, store))))), store + [t])
  }

  // ---------------------------------------------------------------------------
  // Properties of the handler

  /** The extracted fields of a found HubSpot ticket. */
  function FieldsOf(fetched: Reply<Option<HsTicket>>): Fields
    requires Found(fetched)
  {
    ExtractFields(HubspotIdOf(fetched), fetched.value.value.properties)
  }

  /** No two local tickets mirror the same HubSpot ticket. The schema declares
      no unique index, so this rests on the handler's own check. */
  predicate UniqueHubspotIds(store: Store) {
    forall i, j :: 0 <= i < j < |store| ==> store[i].hubspotTicketId != store[j].hubspotTicketId
  }

  /** Once a ticket for `hubspotId` is appended to a store that had none, the
      lookup finds exactly that ticket. */
  lemma FindAfterInsert(store: Store, t: Ticket, hubspotId: string)
    requires FindByHubspotId(store, hubspotId).None? && t.hubspotTicketId == hubspotId
    ensures FindByHubspotId(store + [t], hubspotId) == Some(|store|)
  {
    var s := store + [t];
    var r := FindByHubspotId(s, hubspotId);
    assert s[|store|].hubspotTicketId == hubspotId;
    assert forall j :: 0 <= j < |store| ==> s[j] == store[j];
  }

  /** Ingestion never creates a second ticket for a HubSpot id. */
  lemma IngestKeepsHubspotIdsUnique(
    ticketId: string, fetched: Reply<Option<HsTicket>>, directory: seq<Employee>,
    store: Store, newId: TicketId, now: int, insert: InsertAnswer)
    requires UniqueHubspotIds(store)
    ensures UniqueHubspotIds(Ingest(ticketId, fetched, directory, store, newId, now, insert).store)
  {
  }

  /** Calling the handler again for a HubSpot id it has already answered
      successfully writes nothing and returns the same ticket, with the same
      assignee, whatever the directory, the store's other tickets' loads or
      the HubSpot answer's other fields are by then. */
  lemma IngestIsIdempotent(
    ticketId: string, fetched: Reply<Option<HsTicket>>, directory: seq<Employee>,
    store: Store, newId: TicketId, now: int, insert: InsertAnswer,
    ticketId2: string, fetched2: Reply<Option<HsTicket>>, directory2: seq<Employee>,
    newId2: TicketId, now2: int, insert2: InsertAnswer)
    requires ticketId2 != "" && Found(fetched2)
    requires Found(fetched) ==> HubspotIdOf(fetched2) == HubspotIdOf(fetched)
    ensures
      var o1 := Ingest(ticketId, fetched, directory, store, newId, now, insert);
      var o2 := Ingest(ticketId2, fetched2, directory2, o1.store, newId2, now2, insert2);
      o1.response.Ok? ==>
        && o2.store == o1.store
        && o2.response.Ok? && !o2.response.value.created
        && o2.response.value.ticket == o1.response.value.ticket
  {
    var o1 := Ingest(ticketId, fetched, directory, store, newId, now, insert);
    if o1.response.Ok? {
      var hubspotId := HubspotIdOf(fetched);
      if o1.response.value.created {
        FindAfterInsert(store, o1.response.value.ticket, hubspotId);
      }
    }
  }

  /** When the re-read after the commit fails, the ticket is already stored:
      retrying the same HubSpot id returns that ticket and creates no second one. */
  lemma RetryAfterReadBackFailure(
    ticketId: string, fetched: Reply<Option<HsTicket>>, directory: seq<Employee>,
    store: Store, newId: TicketId, now: int, insert: InsertAnswer,
    ticketId2: string, fetched2: Reply<Option<HsTicket>>, directory2: seq<Employee>,
    newId2: TicketId, now2: int, insert2: InsertAnswer)
    requires ticketId2 != "" && Found(fetched2)
    requires Found(fetched) ==> HubspotIdOf(fetched2) == HubspotIdOf(fetched)
    ensures
      var o1 := Ingest(ticketId, fetched, directory, store, newId, now, insert);
      var o2 := Ingest(ticketId2, fetched2, directory2, o1.store, newId2, now2, insert2);
      o1.response == Err(ReadBackFailed) ==>
        && o2.store == o1.store
        && o2.response.Ok? && !o2.response.value.created
        && o2.response.value.ticket == o1.store[|store|]
  {
    var o1 := Ingest(ticketId, fetched, directory, store, newId, now, insert);
    if o1.response == Err(ReadBackFailed) {
      var t := o1.store[|store|];
      assert o1.store == store + [t];
      FindAfterInsert(store, t, HubspotIdOf(fetched));
    }
  }

  /** The ticket a run appends goes to the least-busy candidate, or to nobody
      when there are no candidates. This holds whether the re-read then
      succeeds or throws; on success it is the ticket the reply carries. */
  lemma IngestAssignsLeastBusy(
    ticketId: string, fetched: Reply<Option<HsTicket>>, directory: seq<Employee>,
    store: Store, newId: TicketId, now: int, insert: InsertAnswer)
    ensures
      var o := Ingest(ticketId, fetched, directory, store, newId, now, insert);
      o.store != store ==>
        var candidates := Candidates(directory, FieldsOf(fetched).ownerId);
        var t := o.store[|store|];
        && (o.response.Ok? ==> o.response.value.created && o.response.value.ticket == t)
        && (candidates == [] <==> t.assignedTo.None?)
        && (candidates != [] ==>
              exists i :: LeastBusyAt(candidates, store, i) && t.assignedTo == Some(candidates[i].id))
  {
    var o := Ingest(ticketId, fetched, directory, store, newId, now, insert);
    if o.store != store {
      AssigneeIsLeastBusy(Candidates(directory, FieldsOf(fetched).ownerId), store);
    }
  }

  /** The ticket a run appends carries the extracted title and description,
      the HubSpot stage string as its status, the new id and creation time,
      no attachments, notes or attachment link, and every required string of
      the schema. */
  lemma IngestCreatesExtractedTicket(
    ticketId: string, fetched: Reply<Option<HsTicket>>, directory: seq<Employee>,
    store: Store, newId: TicketId, now: int, insert: InsertAnswer)
    ensures
      var o := Ingest(ticketId, fetched, directory, store, newId, now, insert);
      o.store != store ==>
        var f := FieldsOf(fetched);
        var t := o.store[|store|];
        && t.id == newId && t.createdAt == now
        && t.title == f.title && t.description == f.description && t.status == JStr(f.stage)
        && t.attachments == [] && t.notes == [] && t.attachmentLink.None?
        && RequiredPresent(t.title) && RequiredPresent(t.description) && RequiredPresent(t.hubspotTicketId)
  {
  }

  /** Appending a ticket raises its assignee's load by one exactly when the
      stage string is one of the active ones; no other employee's load moves. */
  lemma IngestLoadEffect(
    ticketId: string, fetched: Reply<Option<HsTicket>>, directory: seq<Employee>,
    store: Store, newId: TicketId, now: int, insert: InsertAnswer, id: EmployeeId)
    ensures
      var o := Ingest(ticketId, fetched, directory, store, newId, now, insert);
      o.store != store ==>
        ActiveCount(o.store, id) == ActiveCount(store, id)
          + (if o.store[|store|].assignedTo == Some(id) && IsActive(JStr(FieldsOf(fetched).stage)) then 1 else 0)
  {
    var o := Ingest(ticketId, fetched, directory, store, newId, now, insert);
    if o.store != store {
      ActiveCountAfterInsert(store, o.store[|store|], id);
    }
  }

  /** Over a store whose statuses are all the schema's numbers, no load is
      ever counted and the appended ticket goes to the earliest-created candidate. */
  lemma IngestIntoSchemaStoreAssignsEarliest(
    ticketId: string, fetched: Reply<Option<HsTicket>>, directory: seq<Employee>,
    store: Store, newId: TicketId, now: int, insert: InsertAnswer)
    requires forall j :: 0 <= j < |store| ==> StatusAllowed(store[j].status)
    ensures
      var o := Ingest(ticketId, fetched, directory, store, newId, now, insert);
      o.store != store ==>
        var candidates := Candidates(directory, FieldsOf(fetched).ownerId);
        candidates != [] ==>
          exists i :: EarliestAt(candidates, i) && o.store[|store|].assignedTo == Some(candidates[i].id)
  {
    var o := Ingest(ticketId, fetched, directory, store, newId, now, insert);
    if o.store != store {
      var candidates := Candidates(directory, FieldsOf(fetched).ownerId);
      if candidates != [] {
        SchemaStatusesNeverActive(store);
        NoActiveMeansEarliest(candidates, store);
      }
    }
  }
}
