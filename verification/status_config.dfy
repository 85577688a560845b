/** The fixed table of ticket statuses and the label lookup used when tickets
    are listed or shown. */
module StatusConfig {
  import opened Results
  import opened Seqs
  import opened Js

  datatype StatusEntry = StatusEntry(id: int, name: string)

  /** The four statuses, in table order. */
  const TicketStatuses: seq<StatusEntry> := [
    StatusEntry(1, "New"),
    StatusEntry(2, "Waiting on contact"),
    StatusEntry(3, "Waiting on us"),
    StatusEntry(4, "Closed")
  ]

  const UnknownLabel: string := "Unknown"

  /** The table entry with identifier `id`; the table is searched in order and
      compared with strict equality, so a string never matches a numeric id. */
  function FindStatus(id: JsVal): (r: Option<nat>)
    ensures r.Some? ==> r.value < |TicketStatuses| && id == JNum(TicketStatuses[r.value].id)
    ensures r.None? <==> forall j :: 0 <= j < |TicketStatuses| ==> id != JNum(TicketStatuses[j].id)
  {
    FirstIndex(TicketStatuses, (e: StatusEntry) => id.JNum? && e.id == id.n)
  }

  /** The label of status `id`, or "Unknown" for anything not in the table.
      Total: it never fails, whatever it is given. */
  function GetStatusLabel(id: JsVal): (r: string)
    ensures id.JNum? && 1 <= id.n <= 4 ==> r == TicketStatuses[id.n - 1].name
    ensures !(id.JNum? && 1 <= id.n <= 4) ==> r == UnknownLabel
  {
    match FindStatus(id)
    case Some(i) => TicketStatuses[i].name
    case None => UnknownLabel
  }

  /** The table holds exactly the four statuses 1..4 with their labels, and no
      two entries share an identifier, so the first-match lookup is deterministic. */
  lemma TableShape()
    ensures |TicketStatuses| == 4
    ensures forall i :: 0 <= i < |TicketStatuses| ==> TicketStatuses[i].id == i + 1
    ensures forall i, j :: 0 <= i < j < |TicketStatuses| ==> TicketStatuses[i].id != TicketStatuses[j].id
    ensures TicketStatuses[0].name == "New" && TicketStatuses[1].name == "Waiting on contact"
    ensures TicketStatuses[2].name == "Waiting on us" && TicketStatuses[3].name == "Closed"
  {
  }

  /** Looking up any table entry's identifier yields that entry's label, and
      no table label is "Unknown", so the lookup is reversible on the table. */
  lemma LabelOfEveryEntry()
    ensures forall e :: e in TicketStatuses ==> GetStatusLabel(JNum(e.id)) == e.name
    ensures forall e :: e in TicketStatuses ==> e.name != UnknownLabel
  {
    TableShape();
    forall e | e in TicketStatuses
      ensures GetStatusLabel(JNum(e.id)) == e.name && e.name != UnknownLabel
    {
      var k :| 0 <= k < |TicketStatuses| && TicketStatuses[k] == e;
      assert e.name[0] != 'U';
    }
  }

  /** A status stored as a string, such as the stage names written on
      ingestion, is never found in the table. */
  lemma StringStatusIsUnknown(s: string)
    ensures GetStatusLabel(JStr(s)) == UnknownLabel
  {
  }
}
