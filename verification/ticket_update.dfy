/** The update handler: reject an empty request, find the ticket, push a new
    status to HubSpot before changing it locally, then either upload a file and
    record it with a note (status 4 with a file) or record a plain note, and
    save once at the end. Any HubSpot failure skips the save. */
module TicketUpdate {
  import opened Results
  import opened Seqs
  import opened Js
  import opened TicketSchema
  import opened HubspotService

  /** The request: `status`, `noteMessage` and `employeeId` from the body, and
      the uploaded file, each possibly missing. */
  datatype UpdateRequest = UpdateRequest(
    status: Option<JsVal>,
    noteMessage: Option<string>,
    file: Option<UploadFile>,
    employeeId: Option<EmployeeId>)

  /** HubSpot's answers to the calls an update may make; each call is made at most once. */
  datatype HubspotAnswers = HubspotAnswers(
    statusPushOk: bool,
    upload: Reply<Option<UploadedFile>>,
    noteCreate: Reply<Option<string>>,
    associateOk: bool)

  datatype UpdateError =
    | NothingToUpdate    // 400
    | TicketNotFound     // 404
    | HubspotFailed      // 500: a HubSpot call threw
    | PersistenceFailed  // 500: the save threw

  /** The response, the HubSpot write calls issued in order, and the store afterwards. */
  datatype UpdateOutcome = UpdateOutcome(response: Result<Ticket, UpdateError>, calls: seq<Call>, store: Store)

  const FileNoteDefault: string := "File attached"

  /** The guard: at least one of status, note message and file is present. */
  predicate HasWork(req: UpdateRequest) {
    TruthyOpt(req.status) || TruthyStr(req.noteMessage) || req.file.Some?
  }

  /** The file branch is taken when the status is loosely equal to 4 and a file came with it. */
  predicate AttachesFile(req: UpdateRequest) {
    req.status.Some? && LooselyEquals(req.status.value, 4) && req.file.Some?
  }

  /** The calls made so far in steps 3 and 4, and the ticket they leave
      (or the error that stopped them). */
  datatype Step = Step(result: Result<Ticket, UpdateError>, calls: seq<Call>)

  /** Steps 3 and 4: upload, create a note for the file, associate it, and
      append one attachment and one note; or create and associate a plain
      note and append it; or do nothing. */
  function AppendNotes(t: Ticket, req: UpdateRequest, answers: HubspotAnswers, now: int): (st: Step)
    ensures st.result.Ok? <==> BranchSucceeds(req, answers)
    ensures st.result.Err? ==> st.result.error == HubspotFailed
    ensures st.result.Ok? ==>
      && SameIdentity(t, st.result.value) && st.result.value.status == t.status
      && IsPrefix(t.notes, st.result.value.notes) && IsPrefix(t.attachments, st.result.value.attachments)
  {
    if AttachesFile(req) then
      var name := req.file.value.originalName;
      match answers.upload
      case Threw => Step(Err(HubspotFailed), [UploadFileCall(name)])
      case Answered(None) =>
        // reading the id of a missing upload result throws
        Step(Err(HubspotFailed), [UploadFileCall(name)])
      case Answered(Some(up)) =>
        var body := OrElse(req.noteMessage, FileNoteDefault);
        var created := [UploadFileCall(name), CreateNote(body, Some(up.id))];
        match NoteIdOf(answers.noteCreate)
        case Threw => Step(Err(HubspotFailed), created)
        case Answered(noteId) =>
          var associated := created + [AssociateNote(noteId, t.hubspotTicketId)];
          if !answers.associateOk then Step(Err(HubspotFailed), associated)
          else Step(Ok(t.(
                 attachments := t.attachments + [Attachment(up.id, up.url, name, now)],
                 notes := t.notes + [Note(noteId, body, Some(up.url), req.employeeId, now)])),
               associated)
    else if TruthyStr(req.noteMessage) then
      var body := req.noteMessage.value;
      var created := [CreateNote(body, None)];
      match NoteIdOf(answers.noteCreate)
      case Threw => Step(Err(HubspotFailed), created)
      case Answered(noteId) =>
        var associated := created + [AssociateNote(noteId, t.hubspotTicketId)];
        if !answers.associateOk then Step(Err(HubspotFailed), associated)
        else Step(Ok(t.(notes := t.notes + [Note(noteId, body, None, req.employeeId, now)])), associated)
    else Step(Ok(t), [])
  }

  /** The status push of step 2, issued only for a truthy status. */
  function PushCalls(t: Ticket, req: UpdateRequest): seq<Call> {
    if TruthyOpt(req.status) then [PushStatus(t.hubspotTicketId, StatusPayload(req.status.value))] else []
  }

  /** Fields an update never touches. */
  predicate SameIdentity(a: Ticket, b: Ticket) {
    && a.id == b.id && a.title == b.title && a.description == b.description
    && a.assignedTo == b.assignedTo && a.hubspotTicketId == b.hubspotTicketId
    && a.attachmentLink == b.attachmentLink && a.createdAt == b.createdAt
  }

  /** Every HubSpot call of the branch taken answers usefully: the upload
      with a result, the note creation with an id, and the association. */
  predicate BranchSucceeds(req: UpdateRequest, answers: HubspotAnswers) {
    && (AttachesFile(req) ==>
          && answers.upload.Answered? && answers.upload.value.Some?
          && NoteIdOf(answers.noteCreate).Answered? && answers.associateOk)
    && (!AttachesFile(req) && TruthyStr(req.noteMessage) ==>
          NoteIdOf(answers.noteCreate).Answered? && answers.associateOk)
  }

  /** Every HubSpot call the request leads to answers usefully: the status
      push, and the calls of the branch taken. */
  predicate CallsSucceed(req: UpdateRequest, answers: HubspotAnswers) {
    (TruthyOpt(req.status) ==> answers.statusPushOk) && BranchSucceeds(req, answers)
  }

  /** The update handler. `answers` are HubSpot's answers, `now` the time
      stamped on appended records, `saveOk` whether the final save succeeds. */
  function Update(
    store: Store, ticketId: TicketId, req: UpdateRequest,
    answers: HubspotAnswers, now: int, saveOk: bool): (o: UpdateOutcome)
    ensures !HasWork(req) ==> o == UpdateOutcome(Err(NothingToUpdate), [], store)
    ensures HasWork(req) && FindById(store, ticketId).None? ==>
      o == UpdateOutcome(Err(TicketNotFound), [], store)
    ensures o.response.Err? ==> o.store == store
    ensures o.response.Ok? ==>
      && HasWork(req) && saveOk
      && FindById(store, ticketId).Some?
      && var i := FindById(store, ticketId).value;
      && o.store == store[i := o.response.value]
      && SameIdentity(store[i], o.response.value)
      && IsPrefix(store[i].notes, o.response.value.notes)
      && IsPrefix(store[i].attachments, o.response.value.attachments)
      && o.response.value.status == (if TruthyOpt(req.status) then req.status.value else store[i].status)
    ensures HasWork(req) && FindById(store, ticketId).Some? ==>
      var t := store[FindById(store, ticketId).value];
      && (TruthyOpt(req.status) ==>
            |o.calls| >= 1 && o.calls[0] == PushStatus(t.hubspotTicketId, StatusPayload(req.status.value)))
      && (TruthyOpt(req.status) && !answers.statusPushOk ==>
            o == UpdateOutcome(Err(HubspotFailed), [PushStatus(t.hubspotTicketId, StatusPayload(req.status.value))], store))
      && (!TruthyOpt(req.status) ==> forall c :: c in o.calls ==> !c.PushStatus?)
    ensures HasWork(req) && FindById(store, ticketId).Some? ==>
      && (o.response.Ok? <==> CallsSucceed(req, answers) && saveOk)
      && (!CallsSucceed(req, answers) ==> o.response == Err(HubspotFailed))
      && (CallsSucceed(req, answers) && !saveOk ==> o.response == Err(PersistenceFailed))
  {
    if !HasWork(req) then UpdateOutcome(Err(NothingToUpdate), [], store)
    else match FindById(store, ticketId)
      case None => UpdateOutcome(Err(TicketNotFound), [], store)
      case Some(i) =>
        var t := store[i];
        var push := PushCalls(t, req);
        if TruthyOpt(req.status) && !answers.statusPushOk then UpdateOutcome(Err(HubspotFailed), push, store)
        else
          var t1 := if TruthyOpt(req.status) then t.(status := req.status.value) else t;
          var step := AppendNotes(t1, req, answers, now);
          var calls := push + step.calls;
          if step.result.Err? then UpdateOutcome(Err(step.result.error), calls, store)
          else if !saveOk then UpdateOutcome(Err(PersistenceFailed), calls, store)
          else UpdateOutcome(Ok(step.result.value), calls, store[i := step.result.value])
  }

  // ---------------------------------------------------------------------------
  // The branches

  /** Status 4 with a file: the upload, a note for the file and its
      association are issued once each, in that order, after the status push;
      exactly one attachment and one note are appended, the note's message is
      the request's message or "File attached", and its URL is the upload's. */
  lemma FileBranchAppendsAttachmentAndNote(
    store: Store, ticketId: TicketId, req: UpdateRequest, answers: HubspotAnswers, now: int, saveOk: bool)
    requires AttachesFile(req)
    ensures
      var o := Update(store, ticketId, req, answers, now, saveOk);
      o.response.Ok? ==>
        var before := store[FindById(store, ticketId).value];
        var t := o.response.value;
        var up := answers.upload.value.value;
        var noteId := NoteIdOf(answers.noteCreate).value;
        var body := OrElse(req.noteMessage, FileNoteDefault);
        && answers.upload.Answered? && answers.upload.value.Some? && NoteIdOf(answers.noteCreate).Answered?
        && t.attachments == before.attachments + [Attachment(up.id, up.url, req.file.value.originalName, now)]
        && t.notes == before.notes + [Note(noteId, body, Some(up.url), req.employeeId, now)]
        && o.calls == PushCalls(before, req)
             + [UploadFileCall(req.file.value.originalName), CreateNote(body, Some(up.id)),
                AssociateNote(noteId, before.hubspotTicketId)]
  {
  }

  /** A note message without the file branch: one note is created and
      associated, exactly one note is appended, nothing is uploaded and no
      attachment is added. */
  lemma NoteBranchAppendsOneNote(
    store: Store, ticketId: TicketId, req: UpdateRequest, answers: HubspotAnswers, now: int, saveOk: bool)
    requires !AttachesFile(req) && TruthyStr(req.noteMessage)
    ensures
      var o := Update(store, ticketId, req, answers, now, saveOk);
      o.response.Ok? ==>
        var before := store[FindById(store, ticketId).value];
        var t := o.response.value;
        var noteId := NoteIdOf(answers.noteCreate).value;
        && NoteIdOf(answers.noteCreate).Answered?
        && t.attachments == before.attachments
        && t.notes == before.notes + [Note(noteId, req.noteMessage.value, None, req.employeeId, now)]
        && o.calls == PushCalls(before, req)
             + [CreateNote(req.noteMessage.value, None), AssociateNote(noteId, before.hubspotTicketId)]
        && forall c :: c in o.calls ==> !c.UploadFileCall?
  {
  }

  /** Neither branch (for instance a file without status 4 and without a
      message): nothing is appended and only the status push, if any, is issued. */
  lemma NoBranchAppendsNothing(
    store: Store, ticketId: TicketId, req: UpdateRequest, answers: HubspotAnswers, now: int, saveOk: bool)
    requires !AttachesFile(req) && !TruthyStr(req.noteMessage)
    ensures
      var o := Update(store, ticketId, req, answers, now, saveOk);
      o.response.Ok? ==>
        var before := store[FindById(store, ticketId).value];
        && o.response.value.attachments == before.attachments
        && o.response.value.notes == before.notes
        && o.calls == PushCalls(before, req)
  {
  }

  /** Where the file branch stops when HubSpot fails: after a successful
      status push (or none), a failed upload leaves only the upload call; a
      failed note creation leaves the upload and the creation; a failed
      association leaves all three. Each failure answers HubspotFailed and
      leaves the store as it was. */
  lemma FileBranchFailureTraces(
    store: Store, ticketId: TicketId, req: UpdateRequest, answers: HubspotAnswers, now: int, saveOk: bool)
    requires AttachesFile(req)
    ensures
      var o := Update(store, ticketId, req, answers, now, saveOk);
      FindById(store, ticketId).Some? && (TruthyOpt(req.status) ==> answers.statusPushOk) ==>
        var before := store[FindById(store, ticketId).value];
        var pre := PushCalls(before, req);
        var name := req.file.value.originalName;
        && (!(answers.upload.Answered? && answers.upload.value.Some?) ==>
              o == UpdateOutcome(Err(HubspotFailed), pre + [UploadFileCall(name)], store))
        && (answers.upload.Answered? && answers.upload.value.Some? ==>
              var created := pre + [UploadFileCall(name),
                                    CreateNote(OrElse(req.noteMessage, FileNoteDefault), Some(answers.upload.value.value.id))];
              && (NoteIdOf(answers.noteCreate).Threw? ==>
                    o == UpdateOutcome(Err(HubspotFailed), created, store))
              && (NoteIdOf(answers.noteCreate).Answered? && !answers.associateOk ==>
                    o == UpdateOutcome(Err(HubspotFailed),
                                       created + [AssociateNote(NoteIdOf(answers.noteCreate).value, before.hubspotTicketId)],
                                       store)))
  {
  }

  /** Where the note branch stops when HubSpot fails: a failed note creation
      leaves only the creation after the status push, a failed association
      the creation and the association; neither uploads anything. */
  lemma NoteBranchFailureTraces(
    store: Store, ticketId: TicketId, req: UpdateRequest, answers: HubspotAnswers, now: int, saveOk: bool)
    requires !AttachesFile(req) && TruthyStr(req.noteMessage)
    ensures
      var o := Update(store, ticketId, req, answers, now, saveOk);
      FindById(store, ticketId).Some? && (TruthyOpt(req.status) ==> answers.statusPushOk) ==>
        var before := store[FindById(store, ticketId).value];
        var created := PushCalls(before, req) + [CreateNote(req.noteMessage.value, None)];
        && (NoteIdOf(answers.noteCreate).Threw? ==>
              o == UpdateOutcome(Err(HubspotFailed), created, store))
        && (NoteIdOf(answers.noteCreate).Answered? && !answers.associateOk ==>
              o == UpdateOutcome(Err(HubspotFailed),
                                 created + [AssociateNote(NoteIdOf(answers.noteCreate).value, before.hubspotTicketId)],
                                 store))
  {
  }

  /** Every update grows `notes` and `attachments` by at most one entry each. */
  lemma UpdateAppendsAtMostOne(
    store: Store, ticketId: TicketId, req: UpdateRequest, answers: HubspotAnswers, now: int, saveOk: bool)
    ensures
      var o := Update(store, ticketId, req, answers, now, saveOk);
      o.response.Ok? ==>
        var before := store[FindById(store, ticketId).value];
        && |o.response.value.notes| <= |before.notes| + 1
        && |o.response.value.attachments| <= |before.attachments| + 1
        && (|o.response.value.attachments| == |before.attachments| + 1 ==> AttachesFile(req))
  {
    if AttachesFile(req) {
      FileBranchAppendsAttachmentAndNote(store, ticketId, req, answers, now, saveOk);
    } else if TruthyStr(req.noteMessage) {
      NoteBranchAppendsOneNote(store, ticketId, req, answers, now, saveOk);
    } else {
      NoBranchAppendsNothing(store, ticketId, req, answers, now, saveOk);
    }
  }

  /** The HubSpot calls do not depend on whether the final save succeeds: a
      failed save leaves the store as it was while every HubSpot write of the
      successful run, such as a created and associated note, has been made. */
  lemma FailedSaveKeepsHubspotWrites(
    store: Store, ticketId: TicketId, req: UpdateRequest, answers: HubspotAnswers, now: int)
    ensures
      var ok := Update(store, ticketId, req, answers, now, true);
      var failed := Update(store, ticketId, req, answers, now, false);
      && failed.calls == ok.calls
      && failed.store == store
      && (ok.response.Ok? ==> failed.response == Err(PersistenceFailed))
  {
  }

  /** No two tickets share a document id. */
  predicate UniqueIds(store: Store) {
    forall i, j :: 0 <= i < j < |store| ==> store[i].id != store[j].id
  }

  /** An update changes only the ticket it found: every other ticket, the
      order of the store and every ticket's identity are kept, so document
      ids stay unique. */
  lemma UpdateTouchesOnlyItsTicket(
    store: Store, ticketId: TicketId, req: UpdateRequest, answers: HubspotAnswers, now: int, saveOk: bool)
    requires UniqueIds(store)
    ensures
      var o := Update(store, ticketId, req, answers, now, saveOk);
      && |o.store| == |store|
      && (forall j :: 0 <= j < |store| && store[j].id != ticketId ==> o.store[j] == store[j])
      && (forall j :: 0 <= j < |store| ==> SameIdentity(store[j], o.store[j]))
      && UniqueIds(o.store)
  {
  }
}
