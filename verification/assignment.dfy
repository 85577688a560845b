/** The least-busy assignment policy: count each candidate's active tickets,
    sort candidates by (count, creation time) with a stable sort, take the first. */
module Assignment {
  import opened Results
  import opened Seqs
  import opened Js
  import opened TicketSchema
  import opened EmployeeDirectory

  /** The status strings the load count matches, compared literally; numeric
      statuses (the schema's enum) never match them. */
  const ActiveStatuses: set<string> := {"open", "in progress"}

  predicate IsActive(status: JsVal) {
    status.JStr? && status.s in ActiveStatuses
  }

  predicate CountsFor(t: Ticket, id: EmployeeId) {
    t.assignedTo == Some(id) && IsActive(t.status)
  }

  /** The number of tickets assigned to `id` whose status is active; 0 when
      there are none (the count map's default). */
  function ActiveCount(store: Store, id: EmployeeId): (c: nat)
    ensures c <= |store|
    ensures c == 0 <==> forall j :: 0 <= j < |store| ==> !CountsFor(store[j], id)
  {
    Count(store, (t: Ticket) => CountsFor(t, id))
  }

  /** Adding a ticket raises an employee's count by one exactly when the ticket
      is assigned to them with an active status. */
  lemma ActiveCountAfterInsert(store: Store, t: Ticket, id: EmployeeId)
    ensures ActiveCount(store + [t], id) == ActiveCount(store, id) + (if CountsFor(t, id) then 1 else 0)
  {
    CountSnoc(store, t, (u: Ticket) => CountsFor(u, id));
  }

  /** A candidate with the two sort keys the comparator reads. */
  datatype Ranked = Ranked(employee: Employee, load: nat, created: int)

  function Rank(candidates: seq<Employee>, store: Store): (r: seq<Ranked>)
    ensures |r| == |candidates|
    ensures forall i :: 0 <= i < |r| ==>
      r[i] == Ranked(candidates[i], ActiveCount(store, candidates[i].id), CreationTime(candidates[i]))
  {
    seq(|candidates|, i requires 0 <= i < |candidates| =>
      Ranked(candidates[i], ActiveCount(store, candidates[i].id), CreationTime(candidates[i])))
  }

  /** The comparator returns a value <= 0: fewer active tickets first, then
      the earlier creation time. */
  predicate NoLater(a: Ranked, b: Ranked) {
    a.load < b.load || (a.load == b.load && a.created <= b.created)
  }

  predicate SortedByLoad(s: seq<Ranked>) {
    forall i, j :: 0 <= i < j < |s| ==> NoLater(s[i], s[j])
  }

  /** Inserts `x` before the first element it does not come after, so that
      it precedes every element with an equal key. */
  function Insert(x: Ranked, s: seq<Ranked>): (r: seq<Ranked>)
    ensures |r| == |s| + 1
    ensures multiset(r) == multiset(s) + multiset{x}
  {
    if |s| == 0 then [x]
    else if NoLater(x, s[0]) then [x] + s
    else
      assert s == [s[0]] + s[1..];
      [s[0]] + Insert(x, s[1..])
  }

  /** Insertion into a sorted sequence keeps it sorted. */
  lemma {:induction false} InsertKeepsSorted(x: Ranked, s: seq<Ranked>)
    requires SortedByLoad(s)
    ensures SortedByLoad(Insert(x, s))
  {
    if |s| > 0 && !NoLater(x, s[0]) {
      var rest := Insert(x, s[1..]);
      InsertKeepsSorted(x, s[1..]);
      forall k | 0 <= k < |rest|
        ensures NoLater(s[0], rest[k])
      {
        assert rest[k] in multiset(rest);
        if rest[k] != x {
          assert rest[k] in multiset(s[1..]);
          assert rest[k] in s[1..];
          var m :| 0 <= m < |s[1..]| && s[1..][m] == rest[k];
          assert s[m + 1] == rest[k];
        }
      }
      var r := [s[0]] + rest;
      assert r == Insert(x, s);
      forall i, j | 0 <= i < j < |r|
        ensures NoLater(r[i], r[j])
      {
        if i > 0 {
          assert r[i] == rest[i - 1] && r[j] == rest[j - 1];
        } else {
          assert r[j] == rest[j - 1];
        }
      }
    }
  }

  /** The stable sort the handler applies to its candidates (earlier
      elements win ties). */
  function SortByLoad(s: seq<Ranked>): (r: seq<Ranked>)
    ensures |r| == |s|
    ensures multiset(r) == multiset(s)
    ensures SortedByLoad(r)
  {
    if |s| == 0 then [] else
      assert s == [s[0]] + s[1..];
      var tail := SortByLoad(s[1..]);
      InsertKeepsSorted(s[0], tail);
      Insert(s[0], tail)
  }

  /** The employees of ranked candidates, in order. */
  function Employees(ranked: seq<Ranked>): (r: seq<Employee>)
    ensures |r| == |ranked| && forall i :: 0 <= i < |r| ==> r[i] == ranked[i].employee
  {
    seq(|ranked|, i requires 0 <= i < |ranked| => ranked[i].employee)
  }

  /** Ranking and then dropping the keys gives back the candidates. */
  lemma EmployeesOfRank(candidates: seq<Employee>, store: Store)
    ensures Employees(Rank(candidates, store)) == candidates
  {
  }

  lemma EmployeesCons(x: Ranked, s: seq<Ranked>)
    ensures Employees([x] + s) == [x.employee] + Employees(s)
  {
    var l := Employees([x] + s);
    var r := [x.employee] + Employees(s);
    assert |l| == |r|;
    forall i | 0 <= i < |l|
      ensures l[i] == r[i]
    {
      if i > 0 {
        assert ([x] + s)[i] == s[i - 1];
      }
    }
  }

  /** Inserting a candidate adds exactly its employee. */
  lemma {:induction false} InsertEmployees(x: Ranked, s: seq<Ranked>)
    ensures multiset(Employees(Insert(x, s))) == multiset(Employees(s)) + multiset{x.employee}
  {
    if |s| == 0 {
      assert Employees([x]) == [x.employee];
    } else {
      assert s == [s[0]] + s[1..];
      EmployeesCons(s[0], s[1..]);
      if NoLater(x, s[0]) {
        EmployeesCons(x, s);
      } else {
        InsertEmployees(x, s[1..]);
        EmployeesCons(s[0], Insert(x, s[1..]));
      }
    }
  }

  /** Sorting permutes the candidates' employees. */
  lemma {:induction false} SortEmployees(s: seq<Ranked>)
    ensures multiset(Employees(SortByLoad(s))) == multiset(Employees(s))
  {
    if |s| > 0 {
      assert s == [s[0]] + s[1..];
      SortEmployees(s[1..]);
      InsertEmployees(s[0], SortByLoad(s[1..]));
      EmployeesCons(s[0], s[1..]);
    }
  }

  /** Every sorted entry is a ranked candidate, so ranking the sorted
      employees again gives back the sorted sequence: the employees come
      out in (count, creation time) order. */
  lemma RankOfSorted(candidates: seq<Employee>, store: Store)
    ensures Rank(Employees(SortByLoad(Rank(candidates, store))), store) == SortByLoad(Rank(candidates, store))
  {
    var r := Rank(candidates, store);
    var s := SortByLoad(r);
    var e := Employees(s);
    forall k | 0 <= k < |s|
      ensures Rank(e, store)[k] == s[k]
    {
      assert s[k] in multiset(r);
      var m :| 0 <= m < |r| && r[m] == s[k];
    }
  }

  /** An independent reference for the winner: the first position whose key
      is no later than every other key. */
  function FirstMin(s: seq<Ranked>): (i: nat)
    requires |s| > 0
    ensures i < |s|
    ensures forall k :: 0 <= k < |s| ==> NoLater(s[i], s[k])
    ensures forall k :: 0 <= k < i ==> !NoLater(s[k], s[i])
  {
    if |s| == 1 then 0
    else
      var j := 1 + FirstMin(s[1..]);
      if NoLater(s[0], s[j]) then 0 else j
  }

  /** The head of the stable sort is the first minimal element. */
  lemma {:induction false} SortHeadIsFirstMin(s: seq<Ranked>)
    requires |s| > 0
    ensures SortByLoad(s)[0] == s[FirstMin(s)]
  {
    if |s| > 1 {
      SortHeadIsFirstMin(s[1..]);
    }
  }

  /** The assignee: the head of the sorted candidates, none when there are no candidates. */
  function Assignee(candidates: seq<Employee>, store: Store): Option<Employee> {
    if |candidates| == 0 then None else Some(SortByLoad(Rank(candidates, store))[0].employee)
  }

  /** Candidate `i` has the fewest active tickets, breaks ties by earliest
      creation time, and no earlier candidate has the same two keys. */
  predicate LeastBusyAt(candidates: seq<Employee>, store: Store, i: int) {
    && 0 <= i < |candidates|
    && (forall k :: 0 <= k < |candidates| ==>
          ActiveCount(store, candidates[i].id) < ActiveCount(store, candidates[k].id)
          || (ActiveCount(store, candidates[i].id) == ActiveCount(store, candidates[k].id)
              && CreationTime(candidates[i]) <= CreationTime(candidates[k])))
    && (forall k :: 0 <= k < i ==>
          ActiveCount(store, candidates[k].id) > ActiveCount(store, candidates[i].id)
          || (ActiveCount(store, candidates[k].id) == ActiveCount(store, candidates[i].id)
              && CreationTime(candidates[k]) > CreationTime(candidates[i])))
  }

  /** At most one position is least busy: the policy determines the winner. */
  lemma LeastBusyUnique(candidates: seq<Employee>, store: Store, i: int)
    requires LeastBusyAt(candidates, store, i)
    ensures forall j :: 0 <= j < |candidates| && j != i ==> !LeastBusyAt(candidates, store, j)
  {
    forall j | 0 <= j < |candidates| && j != i
      ensures !LeastBusyAt(candidates, store, j)
    {
      var ci, cj := ActiveCount(store, candidates[i].id), ActiveCount(store, candidates[j].id);
      if j < i {
        assert cj > ci || (cj == ci && CreationTime(candidates[j]) > CreationTime(candidates[i]));
      } else {
        assert ci < cj || (ci == cj && CreationTime(candidates[i]) <= CreationTime(candidates[j]));
      }
    }
  }

  /** The assignee is the least-busy candidate: none when there are no
      candidates, otherwise the one position the policy singles out. */
  lemma {:induction false} AssigneeIsLeastBusy(candidates: seq<Employee>, store: Store)
    ensures |candidates| == 0 <==> Assignee(candidates, store).None?
    ensures |candidates| > 0 ==> exists i :: LeastBusyAt(candidates, store, i) && Assignee(candidates, store) == Some(candidates[i])
  {
    if |candidates| > 0 {
      var r := Rank(candidates, store);
      SortHeadIsFirstMin(r);
      var i := FirstMin(r);
      assert LeastBusyAt(candidates, store, i);
    }
  }

  /** Candidate `i` was created first, and no earlier candidate at the same time. */
  predicate EarliestAt(candidates: seq<Employee>, i: int) {
    && 0 <= i < |candidates|
    && (forall k :: 0 <= k < |candidates| ==> CreationTime(candidates[i]) <= CreationTime(candidates[k]))
    && (forall k :: 0 <= k < i ==> CreationTime(candidates[k]) > CreationTime(candidates[i]))
  }

  /** When no stored ticket has an active status, every count is zero and the
      assignee is simply the earliest-created candidate. */
  lemma {:induction false} NoActiveMeansEarliest(candidates: seq<Employee>, store: Store)
    requires |candidates| > 0
    requires forall j :: 0 <= j < |store| ==> !IsActive(store[j].status)
    ensures exists i :: EarliestAt(candidates, i) && Assignee(candidates, store) == Some(candidates[i])
  {
    AssigneeIsLeastBusy(candidates, store);
    var i :| LeastBusyAt(candidates, store, i) && Assignee(candidates, store) == Some(candidates[i]);
    forall k | 0 <= k < |candidates|
      ensures ActiveCount(store, candidates[k].id) == 0
    {
    }
    assert EarliestAt(candidates, i);
  }

  /** Every status the schema admits is a number, which never matches the
      active strings: in a store of schema-valid tickets nobody is busy. */
  lemma SchemaStatusesNeverActive(store: Store)
    requires forall j :: 0 <= j < |store| ==> StatusAllowed(store[j].status)
    ensures forall j :: 0 <= j < |store| ==> !IsActive(store[j].status)
  {
  }

  /** A worked instance: E1 holds two active tickets, E2 and E3 none, and E3
      was created before E2, so E3 is chosen; E2's closed ticket does not count. */
  lemma LeastBusyExample()
    ensures
      var e1 := Employee("e1", Some("42"), Some(100), 0);
      var e2 := Employee("e2", Some("42"), Some(300), 0);
      var e3 := Employee("e3", Some("42"), Some(200), 0);
      var store := [
        Ticket("t1", "a", "a", JStr("open"), Some("e1"), "h1", None, [], [], 10),
        Ticket("t2", "b", "b", JStr("in progress"), Some("e1"), "h2", None, [], [], 11),
        Ticket("t3", "c", "c", JNum(4), Some("e2"), "h3", None, [], [], 12)];
      Assignee([e1, e2, e3], store) == Some(e3)
  {
    var e1 := Employee("e1", Some("42"), Some(100), 0);
    var e2 := Employee("e2", Some("42"), Some(300), 0);
    var e3 := Employee("e3", Some("42"), Some(200), 0);
    var t1 := Ticket("t1", "a", "a", JStr("open"), Some("e1"), "h1", None, [], [], 10);
    var t2 := Ticket("t2", "b", "b", JStr("in progress"), Some("e1"), "h2", None, [], [], 11);
    var t3 := Ticket("t3", "c", "c", JNum(4), Some("e2"), "h3", None, [], [], 12);
    var store := [t1, t2, t3];
    var cs := [e1, e2, e3];
    assert ActiveCount(store, "e1") == 2 by {
      assert ActiveCount([], "e1") == 0;
      ActiveCountAfterInsert([], t1, "e1");
      assert [] + [t1] == [t1];
      ActiveCountAfterInsert([t1], t2, "e1");
      assert [t1] + [t2] == [t1, t2];
      ActiveCountAfterInsert([t1, t2], t3, "e1");
      assert [t1, t2] + [t3] == store;
    }
    assert ActiveCount(store, "e2") == 0 by {
      assert !CountsFor(store[0], "e2") && !CountsFor(store[1], "e2") && !CountsFor(store[2], "e2");
    }
    assert ActiveCount(store, "e3") == 0 by {
      assert !CountsFor(store[0], "e3") && !CountsFor(store[1], "e3") && !CountsFor(store[2], "e3");
    }
    assert CreationTime(e1) == 100 && CreationTime(e2) == 300 && CreationTime(e3) == 200;
    assert LeastBusyAt(cs, store, 2);
    AssigneeIsLeastBusy(cs, store);
    var i :| LeastBusyAt(cs, store, i) && Assignee(cs, store) == Some(cs[i]);
    LeastBusyUnique(cs, store, 2);
    assert i == 2;
  }
}
