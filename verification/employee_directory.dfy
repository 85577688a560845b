/** The employee records consulted when a ticket is assigned, and the
    owner-based candidate filter. Only the fields the assignment reads are kept. */
module EmployeeDirectory {
  import opened Results
  import opened Seqs
  import opened Js
  import opened TicketSchema

  /** An employee: its document id, the HubSpot owner id it answers for, its
      `createdAt` if recorded, and the creation time embedded in its id. Both
      times are in milliseconds since the epoch, the unit of a JavaScript
      `Date`; the id's embedded seconds become a `Date` and hence milliseconds,
      so the tie-breaker compares like with like. */
  datatype Employee = Employee(id: EmployeeId, ownerId: Option<string>, createdAt: Option<int>, idTimestamp: int)

  /** The creation time the tie-breaker compares: `createdAt` when present,
      otherwise the timestamp carried by the document id. */
  function CreationTime(e: Employee): int {
    e.createdAt.GetOr(e.idTimestamp)
  }

  predicate OwnedBy(e: Employee, ownerId: string) {
    e.ownerId == Some(ownerId)
  }

  /** The employees whose `ownerId` equals the ticket's owner id, in directory
      order; none at all when the owner id is missing or empty, since the
      lookup only runs for a truthy owner id. */
  function Candidates(directory: seq<Employee>, ownerId: Option<string>): (r: seq<Employee>)
    ensures !TruthyStr(ownerId) ==> r == []
    ensures TruthyStr(ownerId) ==> forall i :: 0 <= i < |r| ==> r[i] in directory && OwnedBy(r[i], ownerId.value)
    ensures TruthyStr(ownerId) ==>
      forall i :: 0 <= i < |directory| && OwnedBy(directory[i], ownerId.value) ==> directory[i] in r
  {
    if TruthyStr(ownerId) then Filter(directory, (e: Employee) => OwnedBy(e, ownerId.value)) else []
  }

  /** The filter keeps directory order: the candidates of a concatenation are
      the candidates of each part, in turn. */
  lemma CandidatesKeepOrder(a: seq<Employee>, b: seq<Employee>, ownerId: Option<string>)
    ensures Candidates(a + b, ownerId) == Candidates(a, ownerId) + Candidates(b, ownerId)
  {
    if TruthyStr(ownerId) {
      FilterAppend(a, b, (e: Employee) => OwnedBy(e, ownerId.value));
    }
  }
}
