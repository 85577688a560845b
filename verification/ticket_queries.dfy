/** The read paths: one employee's tickets a page at a time, newest first,
    and one ticket's detail, each ticket shown with its status label. */
module TicketQueries {
  import opened Results
  import opened Seqs
  import opened Js
  import opened TicketSchema
  import opened StatusConfig

  /** A ticket as a read path returns it: the document plus its status label. */
  datatype TicketView = TicketView(ticket: Ticket, statusLabel: string)

  function View(t: Ticket): (v: TicketView)
    ensures v.ticket == t
  {
    TicketView(t, GetStatusLabel(t.status))
  }

  function Views(s: seq<Ticket>): (r: seq<TicketView>)
    ensures |r| == |s|
    ensures forall k :: 0 <= k < |r| ==> r[k] == View(s[k])
  {
    seq(|s|, k requires 0 <= k < |s| => View(s[k]))
  }

  datatype QueryError =
    | MissingId     // 400
    | NotFound      // 404
    | QueryFailed   // 500: the database rejected the query

  // ---------------------------------------------------------------------------
  // Pagination arithmetic

  const DefaultPage: int := 1
  const DefaultLimit: int := 10

  /** The number of tickets skipped before a page. */
  function Skip(page: int, limit: int): (r: int)
    ensures page >= 1 && limit >= 0 ==> r >= 0
  {
    (page - 1) * limit
  }

  /** `Math.ceil(total / limit)`, the least integer not below the quotient;
      None for a zero limit, where the quotient is not finite and the
      response carries `null`. */
  function TotalPages(total: nat, limit: int): (r: Option<int>)
    ensures r.None? <==> limit == 0
    ensures limit > 0 ==> r.value >= 0
    ensures limit > 0 ==> (r.value - 1) * limit < total <= r.value * limit
    ensures limit < 0 ==> r.value * limit <= total < (r.value - 1) * limit
  {
    if limit == 0 then None
    else if limit > 0 then Some((total + limit - 1) / limit)
    else Some(-(total / -limit))
  }

  /** How many documents a query limit lets through: all for 0, otherwise its magnitude. */
  function Take(limit: int, available: nat): (n: nat)
    ensures n <= available
    ensures limit > 0 ==> n == if limit < available then limit else available
    ensures limit == 0 ==> n == available
  {
    var wanted := if limit == 0 then available else if limit < 0 then -limit else limit;
    if wanted < available then wanted else available
  }

  /** The window of `s` after skipping `skip` documents. */
  function Window(s: seq<Ticket>, skip: nat, limit: int): (r: seq<Ticket>)
    ensures skip >= |s| ==> |r| == 0
    ensures skip + |r| <= |s| || |r| == 0
    ensures forall k :: 0 <= k < |r| ==> r[k] == s[skip + k]
    ensures limit > 0 ==> |r| <= limit
    ensures skip < |s| && limit > 0 ==> |r| == if limit < |s| - skip then limit else |s| - skip
    ensures skip < |s| && limit == 0 ==> |r| == |s| - skip
    ensures skip < |s| && limit < 0 ==> |r| == if -limit < |s| - skip then -limit else |s| - skip
  {
    if skip >= |s| then [] else s[skip..skip + Take(limit, |s| - skip)]
  }

  // ---------------------------------------------------------------------------
  // Newest first

  predicate NewestFirst(s: seq<Ticket>) {
    forall i, j :: 0 <= i < j < |s| ==> s[i].createdAt >= s[j].createdAt
  }

  function InsertByDate(x: Ticket, s: seq<Ticket>): (r: seq<Ticket>)
    ensures |r| == |s| + 1
    ensures multiset(r) == multiset(s) + multiset{x}
  {
    if |s| == 0 then [x]
    else if x.createdAt >= s[0].createdAt then [x] + s
    else
      assert s == [s[0]] + s[1..];
      [s[0]] + InsertByDate(x, s[1..])
  }

  /** A time no earlier than `x` and every element of `s` is no earlier
      than any element after the insertion. */
  lemma {:induction false} InsertByDateBound(x: Ticket, s: seq<Ticket>, bound: int)
    requires bound >= x.createdAt
    requires forall k :: 0 <= k < |s| ==> bound >= s[k].createdAt
    ensures forall k :: 0 <= k < |InsertByDate(x, s)| ==> bound >= InsertByDate(x, s)[k].createdAt
  {
    if |s| > 0 && x.createdAt < s[0].createdAt {
      InsertByDateBound(x, s[1..], bound);
    }
  }

  lemma {:induction false} InsertByDateKeepsOrder(x: Ticket, s: seq<Ticket>)
    requires NewestFirst(s)
    ensures NewestFirst(InsertByDate(x, s))
  {
    if |s| > 0 && x.createdAt < s[0].createdAt {
      var tail := s[1..];
      assert NewestFirst(tail) by {
        forall i, j | 0 <= i < j < |tail|
          ensures tail[i].createdAt >= tail[j].createdAt
        {
          assert tail[i] == s[i + 1] && tail[j] == s[j + 1];
        }
      }
      assert forall k :: 0 <= k < |tail| ==> s[0].createdAt >= tail[k].createdAt by {
        forall k | 0 <= k < |tail|
          ensures s[0].createdAt >= tail[k].createdAt
        {
          assert tail[k] == s[k + 1];
        }
      }
      var rest := InsertByDate(x, tail);
      InsertByDateKeepsOrder(x, tail);
      InsertByDateBound(x, tail, s[0].createdAt);
      var r := [s[0]] + rest;
      assert r == InsertByDate(x, s);
      forall i, j | 0 <= i < j < |r|
        ensures r[i].createdAt >= r[j].createdAt
      {
        assert r[j] == rest[j - 1];
        if i == 0 {
          assert r[i] == s[0];
        } else {
          assert r[i] == rest[i - 1];
        }
      }
    }
  }

  /** `sort({ createdAt: -1 })`: the same tickets, latest first. */
  function SortNewestFirst(s: seq<Ticket>): (r: seq<Ticket>)
    ensures |r| == |s|
    ensures multiset(r) == multiset(s)
    ensures NewestFirst(r)
  {
    if |s| == 0 then [] else
      assert s == [s[0]] + s[1..];
      var tail := SortNewestFirst(s[1..]);
      InsertByDateKeepsOrder(s[0], tail);
      InsertByDate(s[0], tail)
  }

  // ---------------------------------------------------------------------------
  // One employee's tickets

  predicate AssignedTo(t: Ticket, employeeId: EmployeeId) {
    t.assignedTo == Some(employeeId)
  }

  function EmployeeTickets(store: Store, employeeId: EmployeeId): seq<Ticket> {
    Filter(store, (t: Ticket) => AssignedTo(t, employeeId))
  }

  /** The employee's tickets, newest first, in the order pages are cut from. */
  function Listing(store: Store, employeeId: EmployeeId): (r: seq<Ticket>)
    ensures multiset(r) == multiset(EmployeeTickets(store, employeeId))
    ensures NewestFirst(r)
    ensures forall k :: 0 <= k < |r| ==> r[k] in store && AssignedTo(r[k], employeeId)
  {
    var mine := EmployeeTickets(store, employeeId);
    var r := SortNewestFirst(mine);
    assert forall k :: 0 <= k < |r| ==> r[k] in multiset(mine);
    r
  }

  /** `data` is the page of `listing` that starts after `skip` tickets: the
      next `Take(limit, …)` tickets in listing order, each with its label, and
      nothing once `skip` is past the end. */
  predicate IsPageOf(data: seq<TicketView>, listing: seq<Ticket>, skip: int, limit: int) {
    && skip >= 0
    && (forall k :: 0 <= k < |data| ==>
          && skip + k < |listing| && data[k].ticket == listing[skip + k]
          && data[k].statusLabel == GetStatusLabel(data[k].ticket.status))
    && (skip < |listing| ==> |data| == Take(limit, |listing| - skip))
    && (skip >= |listing| ==> data == [])
  }

  /** The labelled window is a page of the sequence it is cut from. */
  lemma WindowIsPage(listing: seq<Ticket>, skip: nat, limit: int)
    ensures IsPageOf(Views(Window(listing, skip, limit)), listing, skip, limit)
  {
    var w := Window(listing, skip, limit);
    var r := Views(w);
    forall k | 0 <= k < |r|
      ensures skip + k < |listing| && r[k].ticket == listing[skip + k]
    {
      assert r[k] == View(w[k]);
    }
  }

  /** A page of an employee's listing holds stored tickets of that employee,
      newest first, at most `limit` of them. */
  lemma PageOfListing(store: Store, employeeId: EmployeeId, data: seq<TicketView>, skip: int, limit: int)
    requires IsPageOf(data, Listing(store, employeeId), skip, limit)
    ensures limit > 0 ==> |data| <= limit
    ensures forall k :: 0 <= k < |data| ==> data[k].ticket in store && AssignedTo(data[k].ticket, employeeId)
    ensures forall i, j :: 0 <= i < j < |data| ==> data[i].ticket.createdAt >= data[j].ticket.createdAt
  {
    var listing := Listing(store, employeeId);
    if limit > 0 && skip < |listing| {
      assert |data| == Take(limit, |listing| - skip);
    }
    forall i, j | 0 <= i < j < |data|
      ensures data[i].ticket.createdAt >= data[j].ticket.createdAt
    {
      assert data[i].ticket == listing[skip + i] && data[j].ticket == listing[skip + j];
    }
    forall k | 0 <= k < |data|
      ensures data[k].ticket in store && AssignedTo(data[k].ticket, employeeId)
    {
      assert data[k].ticket == listing[skip + k];
    }
  }

  /** The page of the listing that starts after `skip` tickets, with labels. */
  function PageData(store: Store, employeeId: EmployeeId, skip: nat, limit: int): (r: seq<TicketView>)
    ensures limit > 0 ==> |r| <= limit
    ensures forall k :: 0 <= k < |r| ==>
      && r[k].ticket in store && AssignedTo(r[k].ticket, employeeId)
      && r[k].statusLabel == GetStatusLabel(r[k].ticket.status)
    ensures forall i, j :: 0 <= i < j < |r| ==> r[i].ticket.createdAt >= r[j].ticket.createdAt
    ensures IsPageOf(r, Listing(store, employeeId), skip, limit)
  {
    var listing := Listing(store, employeeId);
    WindowIsPage(listing, skip, limit);
    PageOfListing(store, employeeId, Views(Window(listing, skip, limit)), skip, limit);
    Views(Window(listing, skip, limit))
  }

  datatype PageReply = PageReply(total: nat, page: int, limit: int, totalPages: Option<int>, data: seq<TicketView>)

  /** The listing handler. `page` and `limit` are the parsed query values,
      None when absent; a negative skip is refused by the database. */
  function GetTicketsByEmployee(store: Store, employeeId: EmployeeId, page: Option<int>, limit: Option<int>): (r: Result<PageReply, QueryError>)
    ensures employeeId == "" ==> r == Err(MissingId)
    ensures employeeId != "" ==>
      (r.Ok? <==> Skip(page.GetOr(DefaultPage), limit.GetOr(DefaultLimit)) >= 0)
    ensures r.Err? ==> r.error == MissingId || r.error == QueryFailed
    ensures r.Ok? ==>
      var p := r.value;
      && p.page == page.GetOr(DefaultPage) && p.limit == limit.GetOr(DefaultLimit)
      && p.total == |EmployeeTickets(store, employeeId)|
      && p.totalPages == TotalPages(p.total, p.limit)
      && (p.limit > 0 ==> |p.data| <= p.limit)
      && (forall k :: 0 <= k < |p.data| ==>
            && p.data[k].ticket in store && AssignedTo(p.data[k].ticket, employeeId)
            && p.data[k].statusLabel == GetStatusLabel(p.data[k].ticket.status))
      && (forall i, j :: 0 <= i < j < |p.data| ==> p.data[i].ticket.createdAt >= p.data[j].ticket.createdAt)
    ensures r.Ok? ==> IsPageOf(r.value.data, Listing(store, employeeId), Skip(r.value.page, r.value.limit), r.value.limit)
  {
    if employeeId == "" then Err(MissingId)
    else
      var pg := page.GetOr(DefaultPage);
      var lim := limit.GetOr(DefaultLimit);
      var skip := Skip(pg, lim);
      if skip < 0 then Err(QueryFailed)
      else
        var total := |EmployeeTickets(store, employeeId)|;
        Ok(PageReply(total, pg, lim, TotalPages(total, lim), PageData(store, employeeId, skip, lim)))
  }

  /** The first `n` pages of size `limit`, back to back. */
  function FirstPages(s: seq<Ticket>, limit: int, n: nat): seq<Ticket>
    requires limit > 0
  {
    if n == 0 then [] else FirstPages(s, limit, n - 1) + Window(s, Skip(n, limit), limit)
  }

  /** With a positive limit the window is the slice from `skip` to
      `skip + limit`, both cut at the end of the sequence. */
  lemma WindowIsSlice(s: seq<Ticket>, skip: nat, limit: int)
    requires limit > 0
    ensures Window(s, skip, limit)
      == s[(if skip < |s| then skip else |s|)..(if skip + limit < |s| then skip + limit else |s|)]
  {
    var a := if skip < |s| then skip else |s|;
    var b := if skip + limit < |s| then skip + limit else |s|;
    var w := Window(s, skip, limit);
    assert |w| == b - a;
    forall k | 0 <= k < |w|
      ensures w[k] == s[a..b][k]
    {
    }
  }

  /** Page `n` starts where the first `n - 1` pages end, and page `n + 1`
      one limit later. */
  lemma NextPageStart(n: nat, limit: int)
    requires n > 0
    ensures Skip(n, limit) == (n - 1) * limit && n * limit == Skip(n, limit) + limit
  {
  }

  /** A prefix followed by the slice after it is the longer prefix. */
  lemma PrefixThenSlice(s: seq<Ticket>, x: seq<Ticket>, w: seq<Ticket>, a: nat, b: nat)
    requires a <= b <= |s| && x == s[..a] && w == s[a..b]
    ensures x + w == s[..b]
  {
    assert s[..b] == s[..a] + s[a..b];
  }

  lemma {:induction false} FirstPagesArePrefix(s: seq<Ticket>, limit: int, n: nat)
    requires limit > 0
    ensures FirstPages(s, limit, n) == s[..if n * limit < |s| then n * limit else |s|]
  {
    if n > 0 {
      FirstPagesArePrefix(s, limit, n - 1);
      var k: nat := Skip(n, limit);
      NextPageStart(n, limit);
      var a := if k < |s| then k else |s|;
      var b := if k + limit < |s| then k + limit else |s|;
      WindowIsSlice(s, k, limit);
      PrefixThenSlice(s, FirstPages(s, limit, n - 1), Window(s, k, limit), a, b);
    }
  }

  lemma MulMonotone(a: int, b: int, c: int)
    requires a <= b && c >= 0
    ensures a * c <= b * c
  {
  }

  /** A page starts inside the sequence exactly when its number is at most
      `totalPages`. */
  lemma PageStartsInside(total: nat, limit: int, page: int)
    requires limit > 0 && page >= 1
    ensures page <= TotalPages(total, limit).value <==> Skip(page, limit) < total
  {
    var pages := TotalPages(total, limit).value;
    if page <= pages {
      MulMonotone(page - 1, pages - 1, limit);
    } else {
      MulMonotone(pages, page - 1, limit);
    }
  }

  /** With a positive limit, a window is non-empty exactly when it starts
      inside the sequence. */
  lemma WindowNonEmpty(s: seq<Ticket>, skip: nat, limit: int)
    requires limit > 0
    ensures |Window(s, skip, limit)| > 0 <==> skip < |s|
  {
  }

  /** The first `totalPages` pages are the whole sequence. */
  lemma AllPagesAreWhole(s: seq<Ticket>, limit: int)
    requires limit > 0
    ensures FirstPages(s, limit, TotalPages(|s|, limit).value) == s
  {
    var pages := TotalPages(|s|, limit).value;
    assert pages >= 0;
    FirstPagesArePrefix(s, limit, pages);
    assert s[..|s|] == s;
  }

  /** With a positive limit, pages 1 to `totalPages` of any sequence are
      non-empty and, read in order, give the whole sequence; later pages are empty. */
  lemma PagesCover(s: seq<Ticket>, limit: int, page: int)
    requires limit > 0 && page >= 1
    ensures
      var pages := TotalPages(|s|, limit).value;
      && FirstPages(s, limit, pages) == s
      && (page <= pages <==> |Window(s, Skip(page, limit), limit)| > 0)
  {
    AllPagesAreWhole(s, limit);
    PageStartsInside(|s|, limit, page);
    if Skip(page, limit) >= 0 {
      WindowNonEmpty(s, Skip(page, limit), limit);
    }
  }

  /** Pages 1 to `totalPages` of an employee's listing are each non-empty and,
      read in order, list every one of the employee's tickets exactly once,
      newest first; every later page is empty. */
  lemma PagesCoverListing(store: Store, employeeId: EmployeeId, limit: int, page: int)
    requires limit > 0 && page >= 1
    ensures
      var listing := Listing(store, employeeId);
      var pages := TotalPages(|listing|, limit).value;
      && FirstPages(listing, limit, pages) == listing
      && (page <= pages <==> |Window(listing, Skip(page, limit), limit)| > 0)
  {
    PagesCover(Listing(store, employeeId), limit, page);
  }

  /** The tickets of a page, without their labels. */
  function TicketsOf(data: seq<TicketView>): (r: seq<Ticket>)
    ensures |r| == |data| && forall k :: 0 <= k < |r| ==> r[k] == data[k].ticket
  {
    seq(|data|, k requires 0 <= k < |data| => data[k].ticket)
  }

  /** The tickets of a listing reply are exactly the window of the
      employee's newest-first listing that its page and limit select. */
  lemma ReplyDataIsWindow(store: Store, employeeId: EmployeeId, page: Option<int>, limit: Option<int>)
    ensures
      var r := GetTicketsByEmployee(store, employeeId, page, limit);
      r.Ok? ==>
        && Skip(r.value.page, r.value.limit) >= 0
        && TicketsOf(r.value.data) == Window(Listing(store, employeeId), Skip(r.value.page, r.value.limit), r.value.limit)
  {
    var r := GetTicketsByEmployee(store, employeeId, page, limit);
    if r.Ok? {
      var listing := Listing(store, employeeId);
      var skip := Skip(r.value.page, r.value.limit);
      assert IsPageOf(r.value.data, listing, skip, r.value.limit);
      var w := Window(listing, skip, r.value.limit);
      var ts := TicketsOf(r.value.data);
      assert |ts| == |w|;
      assert forall k :: 0 <= k < |ts| ==> ts[k] == w[k];
    }
  }

  /** With a positive limit, a listing reply is non-empty exactly when its
      page number is at most the `totalPages` it reports. */
  lemma ReplyNonEmptyUpToTotalPages(store: Store, employeeId: EmployeeId, page: int, limit: int)
    requires employeeId != "" && page >= 1 && limit > 0
    ensures
      var r := GetTicketsByEmployee(store, employeeId, Some(page), Some(limit));
      && r.Ok?
      && (|r.value.data| > 0 <==> page <= r.value.totalPages.value)
  {
    var r := GetTicketsByEmployee(store, employeeId, Some(page), Some(limit));
    ReplyDataIsWindow(store, employeeId, Some(page), Some(limit));
    PagesCoverListing(store, employeeId, limit, page);
    assert |Listing(store, employeeId)| == r.value.total;
  }

  // ---------------------------------------------------------------------------
  // One ticket

  /** The detail handler: the ticket with its label, 400 for a missing id and
      404 for an unknown one. */
  function GetTicketDetail(store: Store, ticketId: TicketId): (r: Result<TicketView, QueryError>)
    ensures ticketId == "" ==> r == Err(MissingId)
    ensures ticketId != "" ==> (r == Err(NotFound) <==> forall j :: 0 <= j < |store| ==> store[j].id != ticketId)
    ensures r.Err? ==> r.error == MissingId || r.error == NotFound
    ensures r.Ok? ==>
      && r.value.ticket in store && r.value.ticket.id == ticketId
      && r.value.statusLabel == GetStatusLabel(r.value.ticket.status)
  {
    if ticketId == "" then Err(MissingId)
    else match FindById(store, ticketId)
      case None => Err(NotFound)
      case Some(i) => Ok(View(store[i]))
  }
}
