/** The HubSpot calls the controllers make, as abstract operations: each
    either answers or throws. Only the shapes and checks the controllers
    depend on are kept; the HTTP requests themselves are not modelled. */
module HubspotService {
  import opened Results
  import opened Js

  /** What a HubSpot call produced: its answer, or a thrown error. */
  datatype Reply<+T> = Answered(value: T) | Threw

  /** HubSpot's ticket property bag: a key that is absent reads as `undefined`,
      a key mapped to None holds `null`. */
  type Properties = map<string, Option<string>>

  /** A ticket as the ticket endpoint returns it. */
  datatype HsTicket = HsTicket(id: Option<string>, properties: Option<Properties>)

  /** The file attached to an update request. */
  datatype UploadFile = UploadFile(originalName: string)

  /** The first object HubSpot's file manager returns for an upload. */
  datatype UploadedFile = UploadedFile(id: string, url: string)

  /** The calls that write to HubSpot, recorded when they are issued,
      whether or not they then succeed. */
  datatype Call =
    | PushStatus(hubspotTicketId: string, stage: string)
    | UploadFileCall(fileName: string)
    | CreateNote(body: string, attachmentId: Option<string>)
    | AssociateNote(noteId: string, hubspotTicketId: string)

  /** The `hs_pipeline_stage` sent when a status is pushed: `String(status)`.
      A numeric status is spelt in canonical decimal (digits without a
      leading zero or plus sign, a minus for negatives) and reads back as the
      same number. */
  function StatusPayload(status: JsVal): (stage: string)
    ensures status.JStr? ==> stage == status.s
    ensures status.JNum? && status.n >= 0 ==>
      && |stage| > 0 && AllRadix(stage, 10) && (stage[0] == '0' ==> |stage| == 1)
      && RadixValue(stage, 10) == status.n
    ensures status.JNum? && status.n < 0 ==>
      && |stage| >= 2 && stage[0] == '-' && stage[1] != '0'
      && AllRadix(stage[1..], 10) && RadixValue(stage[1..], 10) == -status.n
    ensures status.JNum? ==> StringToNumber(stage) == Finite(status.n, 0)
  {
    if status.JNum? then
      var n := status.n;
      NatToDecimalValue(if n >= 0 then n else -n);
      StringToNumberOfDecimal(n);
      assert n < 0 ==> ToJsString(status)[1..] == NatToDecimal(-n);
      ToJsString(status)
    else ToJsString(status)
  }

  /** Note creation: the id HubSpot returned, or a failure when the call threw
      or the answer carried no id. */
  function NoteIdOf(reply: Reply<Option<string>>): (r: Reply<string>)
    ensures r.Answered? <==> reply.Answered? && TruthyStr(reply.value)
    ensures r.Answered? ==> r.value != "" && reply.value == Some(r.value)
  {
    match reply
    case Answered(Some(id)) => if id != "" then Answered(id) else Threw
    case _ => Threw
  }
}
