/**
 * The agreements table of agreement_tracker and what its routes do to it. Dates
 * are day numbers; an end date the route cannot parse as %Y-%m-%d is None, and
 * today is a parameter. A row's status is text ('Active', 'Expired', 'Renewed'
 * or anything a migration left), compared as text by the filters. Rendering,
 * charts, the upload folder and SMTP are left out.
 */
module AgreementTracker {
  import opened Wrappers

  const Active: string := "Active"
  const Expired: string := "Expired"
  const RenewedStatus: string := "Renewed"

  datatype Agreement = Agreement(
    id: nat,
    company: string,
    person: string,
    designation: string,
    contact: Option<string>,
    email: Option<string>,
    startDate: string,
    endDate: Option<int>,
    filename: string,
    previous: Option<nat>,
    status: string,
    secondPerson: Option<string>,
    secondEmail: Option<string>)

  // ---------------------------------------------------------------------------
  // The status-refresh rule

  /** (end_date - today).days, or None for an end date that does not parse. */
  function DaysRemaining(a: Agreement, today: int): (d: Option<int>)
    ensures d.Some? <==> a.endDate.Some?
    ensures d.Some? ==> a.endDate.value == today + d.value
  {
    if a.endDate.Some? then Some(a.endDate.value - today) else None
  }

  /** The status a route reports and stores: an 'Active' row whose end date is
      today or earlier becomes 'Expired'; every other row keeps its status. */
  function RefreshedStatus(a: Agreement, today: int): (s: string)
    ensures s != a.status ==> a.status == Active && s == Expired
    ensures s == Expired <==> a.status == Expired || (a.status == Active && a.endDate.Some? && a.endDate.value <= today)
  {
    if a.status == Active && a.endDate.Some? && a.endDate.value <= today then Expired else a.status
  }

  function Refreshed(a: Agreement, today: int): Agreement {
    a.(status := RefreshedStatus(a, today))
  }

  /** Refreshing changes nothing but the status, and twice is once. */
  lemma RefreshSpec(a: Agreement, today: int)
    ensures Refreshed(a, today).(status := a.status) == a
    ensures Refreshed(Refreshed(a, today), today) == Refreshed(a, today)
  {
  }

  /** Every row of s, refreshed. */
  function RefreshSeq(s: seq<Agreement>, today: int): (r: seq<Agreement>)
    ensures |r| == |s|
    ensures forall i :: 0 <= i < |s| ==> r[i] == Refreshed(s[i], today)
  {
    if s == [] then [] else [Refreshed(s[0], today)] + RefreshSeq(s[1..], today)
  }

  /** Refreshing one more row appends its refreshed copy. */
  lemma RefreshSeqAppend(s: seq<Agreement>, a: Agreement, today: int)
    ensures RefreshSeq(s + [a], today) == RefreshSeq(s, today) + [Refreshed(a, today)]
  {
    assert forall i :: 0 <= i < |s| ==> (s + [a])[i] == s[i];
  }

  // ---------------------------------------------------------------------------
  // Day buckets

  /** The three ranges of the expiring summary. */
  datatype Range = UpTo10 | UpTo30 | UpTo60

  predicate InWindow(d: Option<int>) {
    d.Some? && 0 <= d.value <= 60
  }

  /** The bucket a day count is counted in: none outside 0..60 or for None. */
  function Bucket(d: Option<int>): (b: Option<Range>)
    ensures b.Some? <==> InWindow(d)
    ensures b == Some(UpTo10) <==> d.Some? && 0 <= d.value <= 10
    ensures b == Some(UpTo30) <==> d.Some? && 11 <= d.value <= 30
    ensures b == Some(UpTo60) <==> d.Some? && 31 <= d.value <= 60
  {
    if d.None? || !(0 <= d.value <= 60) then None
    else if d.value <= 10 then Some(UpTo10)
    else if d.value <= 30 then Some(UpTo30)
    else Some(UpTo60)
  }

  /** The counts dict {'0-10', '11-30', '31-60'}. */
  datatype Counts = Counts(upTo10: nat, upTo30: nat, upTo60: nat) {
    function Total(): nat {
      upTo10 + upTo30 + upTo60
    }
  }

  function Count(c: Counts, d: Option<int>): Counts {
    match Bucket(d)
    case None => c
    case Some(UpTo10) => c.(upTo10 := c.upTo10 + 1)
    case Some(UpTo30) => c.(upTo30 := c.upTo30 + 1)
    case Some(UpTo60) => c.(upTo60 := c.upTo60 + 1)
  }

  /** The counts after the loop over the day counts ds. */
  function TallyDays(ds: seq<Option<int>>): Counts {
    if ds == [] then Counts(0, 0, 0) else Count(TallyDays(ds[..|ds| - 1]), ds[|ds| - 1])
  }

  /** The dashboard's loop over the day counts, filling the three buckets. */
  method CountBuckets(ds: seq<Option<int>>) returns (counts: Counts)
    ensures counts == TallyDays(ds)
    ensures counts.Total() == WindowCount(ds)
  {
    counts := Counts(0, 0, 0);
    for i := 0 to |ds|
      invariant counts == TallyDays(ds[..i])
    {
      var d := ds[i];
      if d.Some? && 0 <= d.value <= 60 {
        if 0 <= d.value <= 10 {
          counts := counts.(upTo10 := counts.upTo10 + 1);
        } else if 11 <= d.value <= 30 {
          counts := counts.(upTo30 := counts.upTo30 + 1);
        } else if 31 <= d.value <= 60 {
          counts := counts.(upTo60 := counts.upTo60 + 1);
        }
      }
      assert ds[..i + 1][..i] == ds[..i];
    }
    assert ds[..|ds|] == ds;
    TallyTotal(ds);
  }

  /** How many of ds lie in 0..60. */
  function WindowCount(ds: seq<Option<int>>): nat {
    if ds == [] then 0 else WindowCount(ds[..|ds| - 1]) + (if InWindow(ds[|ds| - 1]) then 1 else 0)
  }

  /** The three counts add up to the day counts in 0..60: each of those is
      counted exactly once, the others nowhere. */
  lemma {:induction false} TallyTotal(ds: seq<Option<int>>)
    ensures TallyDays(ds).Total() == WindowCount(ds)
  {
    if ds != [] {
      TallyTotal(ds[..|ds| - 1]);
    }
  }

  /** The day counts of the rows, in table order. */
  function DaysOf(rows: seq<Agreement>, today: int): (ds: seq<Option<int>>)
    ensures |ds| == |rows|
    ensures forall i :: 0 <= i < |rows| ==> ds[i] == DaysRemaining(rows[i], today)
  {
    if rows == [] then [] else DaysOf(rows[..|rows| - 1], today) + [DaysRemaining(rows[|rows| - 1], today)]
  }

  // ---------------------------------------------------------------------------
  // Listed rows and their order

  /** A listed row: the agreement with its refreshed status, and its days. */
  datatype Listed = Listed(agreement: Agreement, days: Option<int>)

  function Enrich(a: Agreement, today: int): Listed {
    Listed(Refreshed(a, today), DaysRemaining(a, today))
  }

  /** The sort key (days is None, days): known day counts ascending, None last. */
  predicate DaysLe(a: Option<int>, b: Option<int>) {
    b.None? || (a.Some? && a.value <= b.value)
  }

  predicate SortedByDays(s: seq<Listed>) {
    forall i, j :: 0 <= i < j < |s| ==> DaysLe(s[i].days, s[j].days)
  }

  /** x placed after every element of s whose key is not greater. */
  function InsertByDays(s: seq<Listed>, x: Listed): (r: seq<Listed>)
    ensures multiset(r) == multiset(s) + multiset{x}
  {
    if s == [] then [x]
    else if !DaysLe(s[0].days, x.days) then [x] + s
    else
      assert s == [s[0]] + s[1..];
      [s[0]] + InsertByDays(s[1..], x)
  }

  /** Inserting into a sorted list keeps it sorted. */
  lemma {:induction false} InsertSorted(s: seq<Listed>, x: Listed)
    requires SortedByDays(s)
    ensures SortedByDays(InsertByDays(s, x))
  {
    if s != [] && DaysLe(s[0].days, x.days) {
      var rest := InsertByDays(s[1..], x);
      InsertSorted(s[1..], x);
      forall y | y in rest
        ensures DaysLe(s[0].days, y.days)
      {
        assert y in multiset(rest);
        if y != x {
          assert y in s[1..];
        }
      }
      var r := [s[0]] + rest;
      assert InsertByDays(s, x) == r;
      forall i, j | 0 <= i < j < |r|
        ensures DaysLe(r[i].days, r[j].days)
      {
        if i == 0 {
          assert r[j] in rest;
        } else {
          assert r[i] == rest[i - 1] && r[j] == rest[j - 1];
        }
      }
    }
  }

  /** list.sort with the key above. */
  function SortByDays(s: seq<Listed>): (r: seq<Listed>)
    ensures SortedByDays(r)
    ensures multiset(r) == multiset(s)
  {
    if s == [] then []
    else
      assert s == s[..|s| - 1] + [s[|s| - 1]];
      InsertSorted(SortByDays(s[..|s| - 1]), s[|s| - 1]);
      InsertByDays(SortByDays(s[..|s| - 1]), s[|s| - 1])
  }

  /** A status filter: 'all', or one status. */
  predicate StatusMatches(filter: string, status: string) {
    filter == "all" || status == filter
  }

  /** A range filter: 'all', '0-10', '11-30' or '31-60'; anything else matches nothing. */
  predicate RangeMatches(filter: string, d: int) {
    || filter == "all"
    || (filter == "0-10" && 0 <= d <= 10)
    || (filter == "11-30" && 11 <= d <= 30)
    || (filter == "31-60" && 31 <= d <= 60)
  }

  /** The rows view_agreements collects, before sorting. */
  function ViewRows(rows: seq<Agreement>, today: int, filter: string): seq<Listed> {
    if rows == [] then []
    else
      var a := rows[|rows| - 1];
      ViewRows(rows[..|rows| - 1], today, filter)
      + (if StatusMatches(filter, RefreshedStatus(a, today)) then [Enrich(a, today)] else [])
  }

  /** The rows expiring_agreements collects, before sorting. */
  function ExpiringRows(rows: seq<Agreement>, today: int, rangeFilter: string, statusFilter: string): seq<Listed> {
    if rows == [] then []
    else
      var a := rows[|rows| - 1];
      var d := DaysRemaining(a, today);
      ExpiringRows(rows[..|rows| - 1], today, rangeFilter, statusFilter)
      + (if InWindow(d) && RangeMatches(rangeFilter, d.value) && StatusMatches(statusFilter, RefreshedStatus(a, today))
         then [Enrich(a, today)] else [])
  }

  /** A row is listed by view_agreements exactly when its refreshed status
      passes the filter. */
  lemma {:induction false} ViewRowsSpec(rows: seq<Agreement>, today: int, filter: string)
    ensures forall x :: x in ViewRows(rows, today, filter) <==>
              exists i :: 0 <= i < |rows| && x == Enrich(rows[i], today) && StatusMatches(filter, x.agreement.status)
  {
    if rows != [] {
      var init := rows[..|rows| - 1];
      ViewRowsSpec(init, today, filter);
      assert forall i :: 0 <= i < |init| ==> init[i] == rows[i];
    }
  }

  /** A row is listed by expiring_agreements exactly when its day count lies
      in 0..60 and passes the range filter, and its refreshed status passes
      the status filter. */
  lemma {:induction false} ExpiringRowsSpec(rows: seq<Agreement>, today: int, rangeFilter: string, statusFilter: string)
    ensures forall x :: x in ExpiringRows(rows, today, rangeFilter, statusFilter) <==>
              exists i :: 0 <= i < |rows| && x == Enrich(rows[i], today) && InWindow(x.days)
                          && RangeMatches(rangeFilter, x.days.value) && StatusMatches(statusFilter, x.agreement.status)
  {
    if rows != [] {
      var init := rows[..|rows| - 1];
      ExpiringRowsSpec(init, today, rangeFilter, statusFilter);
      assert forall i :: 0 <= i < |init| ==> init[i] == rows[i];
    }
  }

  /** Without filters the expiring table has as many rows as the three counts
      together. */
  lemma {:induction false} ExpiringAllCount(rows: seq<Agreement>, today: int)
    ensures |ExpiringRows(rows, today, "all", "all")| == TallyDays(DaysOf(rows, today)).Total()
  {
    if rows != [] {
      var init := rows[..|rows| - 1];
      ExpiringAllCount(init, today);
      TallyTotal(DaysOf(rows, today));
      TallyTotal(DaysOf(init, today));
      assert DaysOf(rows, today)[..|rows| - 1] == DaysOf(init, today);
    }
  }

  // ---------------------------------------------------------------------------
  // Agreement history

  /** id lookup: the first row with that id. */
  function IndexOf(rows: seq<Agreement>, id: nat): (r: Option<nat>)
    ensures r.Some? ==> r.value < |rows| && rows[r.value].id == id
                        && forall j :: 0 <= j < r.value ==> rows[j].id != id
    ensures r.None? ==> forall j :: 0 <= j < |rows| ==> rows[j].id != id
  {
    if rows == [] then None
    else if rows[0].id == id then Some(0)
    else match IndexOf(rows[1..], id)
         case None => None
         case Some(k) => Some(k + 1)
  }

  /** Two tables with the same ids in the same places find the same row. */
  lemma SameIdsSameIndex(a: seq<Agreement>, b: seq<Agreement>, id: nat)
    requires |a| == |b| && forall j :: 0 <= j < |a| ==> a[j].id == b[j].id
    ensures IndexOf(a, id) == IndexOf(b, id)
  {
  }

  /** Every link points at an older agreement: ids only grow, and a renewal
      links to an agreement that already exists. */
  predicate LinksDescend(rows: seq<Agreement>) {
    forall i :: 0 <= i < |rows| && rows[i].previous.Some? ==> rows[i].previous.value < rows[i].id
  }

  /** The rows the history loop visits from cur: none once cur is None or 0
      (falsy) or no row has that id; otherwise that row, then the rows from
      its previous_agreement_id. Newest first. */
  function Chain(rows: seq<Agreement>, cur: Option<nat>): seq<Agreement>
    requires LinksDescend(rows)
    decreases if cur.Some? then cur.value else 0
  {
    if cur.None? || cur.value == 0 then []
    else match IndexOf(rows, cur.value)
         case None => []
         case Some(k) => [rows[k]] + Chain(rows, rows[k].previous)
  }

  /** Along the chain each row links to the next one and ids strictly
      decrease; every row is the first row of the table with its id; the walk
      ends at a row whose link is empty, 0 or names no row. */
  lemma {:induction false} ChainSpec(rows: seq<Agreement>, cur: Option<nat>)
    requires LinksDescend(rows)
    ensures var c := Chain(rows, cur);
            && (forall k :: 0 <= k < |c| - 1 ==> c[k].previous == Some(c[k + 1].id) && c[k + 1].id < c[k].id)
            && (forall x :: x in c ==> x in rows)
            && (forall k :: 0 <= k < |c| ==> IndexOf(rows, c[k].id).Some? && c[k] == rows[IndexOf(rows, c[k].id).value])
            && (c != [] ==> cur.Some? && c[0].id == cur.value)
            && (c != [] ==> var p := c[|c| - 1].previous; p.None? || p.value == 0 || IndexOf(rows, p.value).None?)
    decreases if cur.Some? then cur.value else 0
  {
    if cur.Some? && cur.value != 0 && IndexOf(rows, cur.value).Some? {
      var k := IndexOf(rows, cur.value).value;
      ChainSpec(rows, rows[k].previous);
      var rest := Chain(rows, rows[k].previous);
      assert Chain(rows, cur) == [rows[k]] + rest;
      if rest != [] {
        assert rows[k].previous == Some(rest[0].id);
      }
    }
  }

  function Reverse(s: seq<Agreement>): (r: seq<Agreement>)
    ensures |r| == |s|
    ensures forall i :: 0 <= i < |s| ==> r[i] == s[|s| - 1 - i]
  {
    if s == [] then [] else Reverse(s[1..]) + [s[0]]
  }

  /** The page agreement_history shows for id, oldest first. */
  function History(rows: seq<Agreement>, id: nat, today: int): seq<Agreement>
    requires LinksDescend(rows)
  {
    Reverse(RefreshSeq(Chain(rows, Some(id)), today))
  }

  /** The k-th entry of the history page is the k-th row of the walk counted
      from its far end, refreshed. */
  lemma HistoryAt(c: seq<Agreement>, today: int, k: int)
    requires 0 <= k < |c|
    ensures |Reverse(RefreshSeq(c, today))| == |c|
    ensures Reverse(RefreshSeq(c, today))[k] == Refreshed(c[|c| - 1 - k], today)
  {
    var rs := RefreshSeq(c, today);
    var j := |c| - 1 - k;
    assert Reverse(rs)[k] == rs[j];
    assert rs[j] == Refreshed(c[j], today);
  }

  /** The history is empty exactly when no row has the id (or the id is 0);
      otherwise it ends with the requested agreement, ids increase along it,
      each entry is the renewal of the one before, it starts at a row whose
      link is empty, 0 or names no row, and every entry is the refreshed first
      row of the table with its id. */
  lemma HistorySpec(rows: seq<Agreement>, id: nat, today: int)
    requires LinksDescend(rows)
    ensures var h := History(rows, id, today);
            && (h == [] <==> id == 0 || IndexOf(rows, id).None?)
            && (h != [] ==> h[|h| - 1].id == id)
            && (forall k :: 0 <= k < |h| - 1 ==> h[k + 1].previous == Some(h[k].id) && h[k].id < h[k + 1].id)
            && (h != [] ==> h[0].previous.None? || h[0].previous.value == 0 || IndexOf(rows, h[0].previous.value).None?)
            && (forall k :: 0 <= k < |h| ==>
                  IndexOf(rows, h[k].id).Some? && h[k] == Refreshed(rows[IndexOf(rows, h[k].id).value], today))
  {
    ChainSpec(rows, Some(id));
    var c := Chain(rows, Some(id));
    var h := History(rows, id, today);
    assert |h| == |c|;
    forall k | 0 <= k < |h| - 1
      ensures h[k + 1].previous == Some(h[k].id) && h[k].id < h[k + 1].id
    {
      HistoryAt(c, today, k);
      HistoryAt(c, today, k + 1);
    }
    forall k | 0 <= k < |h|
      ensures IndexOf(rows, h[k].id).Some? && h[k] == Refreshed(rows[IndexOf(rows, h[k].id).value], today)
    {
      HistoryAt(c, today, k);
    }
    if h != [] {
      HistoryAt(c, today, |h| - 1);
      HistoryAt(c, today, 0);
    }
  }

  // ---------------------------------------------------------------------------
  // Remove

  /** The row with its previous_agreement_id cleared when that was id. */
  function Unlinked(a: Agreement, id: nat): Agreement {
    if a.previous == Some(id) then a.(previous := None) else a
  }

  /** The rows whose previous_agreement_id was id now have none. */
  function Unlink(rows: seq<Agreement>, id: nat): (r: seq<Agreement>)
    ensures |r| == |rows|
  {
    seq(|rows|, j requires 0 <= j < |rows| => Unlinked(rows[j], id))
  }

  /** The rows without the ones with that id, in table order. */
  function Without(rows: seq<Agreement>, id: nat): (r: seq<Agreement>)
    ensures |r| <= |rows|
    ensures forall x :: x in r <==> x in rows && x.id != id
  {
    if rows == [] then [] else (if rows[0].id == id then [] else [rows[0]]) + Without(rows[1..], id)
  }

  function Removed(rows: seq<Agreement>, id: nat): seq<Agreement> {
    Without(Unlink(rows, id), id)
  }

  /** After remove_agreement no row has the id and no row links to it; every
      other row is still there with only its link possibly cleared. */
  lemma RemoveSpec(rows: seq<Agreement>, id: nat)
    ensures forall x :: x in Removed(rows, id) ==> x.id != id && x.previous != Some(id)
    ensures forall x :: x in Removed(rows, id) <==> exists j :: 0 <= j < |rows| && rows[j].id != id && x == Unlinked(rows[j], id)
  {
    var u := Unlink(rows, id);
    forall x | x in Removed(rows, id)
      ensures x.previous != Some(id)
    {
      var j :| 0 <= j < |u| && u[j] == x;
    }
    forall x | (exists j :: 0 <= j < |rows| && rows[j].id != id && x == Unlinked(rows[j], id))
      ensures x in Removed(rows, id)
    {
      var j :| 0 <= j < |rows| && rows[j].id != id && x == Unlinked(rows[j], id);
      assert u[j] == x;
    }
  }

  // ---------------------------------------------------------------------------
  // Email recipients

  /** A truthy text field: present and not empty. */
  predicate Given(f: Option<string>) {
    f.Some? && f.value != ""
  }

  /** The emails list: email_id, then second_email_id, each only when given. */
  function Recipients(a: Agreement): (r: seq<string>)
    ensures |r| == (if Given(a.email) then 1 else 0) + (if Given(a.secondEmail) then 1 else 0)
    ensures Given(a.email) ==> r[0] == a.email.value
    ensures forall e :: e in r ==> e != "" && (Some(e) == a.email || Some(e) == a.secondEmail)
  {
    (if Given(a.email) then [a.email.value] else []) + (if Given(a.secondEmail) then [a.secondEmail.value] else [])
  }

  datatype EmailAction = AgreementNotFound | ChooseAddress | SendTo(address: string) | NoAddress

  /** send_email: more than one address leads to the selection page, exactly
      one is written to directly, none is an error. */
  function EmailDecision(rows: seq<Agreement>, id: nat): (r: EmailAction)
    ensures IndexOf(rows, id).None? <==> r == AgreementNotFound
    ensures r == ChooseAddress ==> IndexOf(rows, id).Some? && Given(rows[IndexOf(rows, id).value].email) && Given(rows[IndexOf(rows, id).value].secondEmail)
    ensures r.SendTo? ==> IndexOf(rows, id).Some? &&
                          var a := rows[IndexOf(rows, id).value];
                          (Some(r.address) == a.email && !Given(a.secondEmail) && r.address != "")
                          || (Some(r.address) == a.secondEmail && !Given(a.email) && r.address != "")
    ensures r == NoAddress ==> IndexOf(rows, id).Some? && !Given(rows[IndexOf(rows, id).value].email) && !Given(rows[IndexOf(rows, id).value].secondEmail)
  {
    match IndexOf(rows, id)
    case None => AgreementNotFound
    case Some(k) =>
      var emails := Recipients(rows[k]);
      if |emails| > 1 then ChooseAddress
      else if |emails| == 1 then SendTo(emails[0])
      else NoAddress
  }

  // ---------------------------------------------------------------------------
  // The table

  /** Ids are positive, below nextId and unique; links point at older ids. */
  predicate WellFormed(rows: seq<Agreement>, nextId: nat) {
    && 1 <= nextId
    && (forall i :: 0 <= i < |rows| ==> 1 <= rows[i].id < nextId)
    && UniqueIds(rows)
    && LinksDescend(rows)
  }

  /** No two rows share an id (the primary key). */
  predicate UniqueIds(rows: seq<Agreement>) {
    forall i, j :: 0 <= i < j < |rows| ==> rows[i].id != rows[j].id
  }

  datatype RenewOutcome = RenewNotFound | InvalidStartDate | SaveFailed | RenewedAs(newId: nat)

  /** The result of a POST to /renew: the renewal's form fields; filename is
      the sanitised name of the sent document ("" when none is chosen),
      storedPath the path "{year}/{file name}" it is saved under, and
      fileSaved says whether it is found on disk once it has been saved. */
  datatype RenewForm = RenewForm(person: string, designation: string, contact: Option<string>, email: Option<string>,
                                 startDate: string, startParses: bool, endDate: Option<int>, filename: string,
                                 storedPath: string, fileSaved: bool,
                                 secondPerson: Option<string>, secondEmail: Option<string>)

  /** Whether renew_agreement gets its document stored: without a file name
      the save targets the year folder itself and raises, and a saved file
      that is not found is refused; either way before any row changes. */
  predicate RenewalSaved(f: RenewForm) {
    f.filename != "" && f.fileSaved
  }

  /** The row a renewal inserts: 'Active', linked to the renewed agreement and
      with its company name. */
  function RenewalRow(id: nat, renewed: Agreement, f: RenewForm): (r: Agreement)
    ensures r.id == id && r.status == Active && r.previous == Some(renewed.id) && r.company == renewed.company
  {
    Agreement(id, renewed.company, f.person, f.designation, f.contact, f.email, f.startDate, f.endDate, f.storedPath,
              Some(renewed.id), Active, f.secondPerson, f.secondEmail)
  }

  /** The rows after renewing the row at k as newId. */
  function RenewRows(rows: seq<Agreement>, k: nat, newId: nat, f: RenewForm): seq<Agreement>
    requires k < |rows|
  {
    rows[k := rows[k].(status := RenewedStatus)] + [RenewalRow(newId, rows[k], f)]
  }

  /** The history of a renewal is the history of the agreement it renews
      followed by the renewal itself. */
  lemma RenewExtendsHistory(rows: seq<Agreement>, k: nat, newId: nat, f: RenewForm, today: int)
    requires k < |rows| && LinksDescend(rows) && rows[k].id < newId
    requires forall j :: 0 <= j < |rows| ==> rows[j].id != newId
    ensures LinksDescend(RenewRows(rows, k, newId, f))
    ensures var after := RenewRows(rows, k, newId, f);
            History(after, newId, today) == History(after, rows[k].id, today) + [Refreshed(RenewalRow(newId, rows[k], f), today)]
  {
    var after := RenewRows(rows, k, newId, f);
    var n := RenewalRow(newId, rows[k], f);
    assert after[|rows|] == n;
    assert IndexOf(after, newId) == Some(|rows|);
    assert Chain(after, Some(newId)) == [n] + Chain(after, Some(rows[k].id));
    var c := Chain(after, Some(rows[k].id));
    assert RefreshSeq([n] + c, today) == [Refreshed(n, today)] + RefreshSeq(c, today);
    assert Reverse([Refreshed(n, today)] + RefreshSeq(c, today)) == Reverse(RefreshSeq(c, today)) + [Refreshed(n, today)];
  }

  /** The result of a POST to /upload: filename is the uploaded file's name as
      given (None without a file), storedPath the path "{year}/{file name}" it
      is saved under, and fileSaved says whether it is found on disk once it
      has been saved there. */
  datatype UploadForm = UploadForm(company: string, person: string, designation: string, contact: Option<string>,
                                   email: Option<string>, startDate: string, startParses: bool, endDate: Option<int>,
                                   filename: Option<string>, storedPath: string, fileSaved: bool,
                                   secondPerson: Option<string>, secondEmail: Option<string>)

  datatype UploadOutcome = UploadInvalidStartDate | NoFile | UploadSaveFailed | Uploaded(newId: nat)

  /** The agreements table; nextId is the next AUTOINCREMENT id. */
  class AgreementTable {
    var rows: seq<Agreement>
    var nextId: nat

    ghost predicate Valid()
      reads this
    {
      WellFormed(rows, nextId)
    }

    constructor ()
      ensures rows == [] && nextId == 1 && Valid()
    {
      rows := [];
      nextId := 1;
    }

    /** upload_agreement: the start date must parse, a file must be given and
        be found once saved; the new row is 'Active' with no previous
        agreement and the stored path. */
    method UploadAgreement(f: UploadForm) returns (r: UploadOutcome)
      requires Valid()
      modifies this
      ensures Valid()
      ensures !f.startParses ==> r == UploadInvalidStartDate && rows == old(rows) && nextId == old(nextId)
      ensures f.startParses && (f.filename.None? || f.filename.value == "") ==>
                r == NoFile && rows == old(rows) && nextId == old(nextId)
      ensures f.startParses && f.filename.Some? && f.filename.value != "" && !f.fileSaved ==>
                r == UploadSaveFailed && rows == old(rows) && nextId == old(nextId)
      ensures f.startParses && f.filename.Some? && f.filename.value != "" && f.fileSaved ==> r.Uploaded?
      ensures r.Uploaded? ==>
                && r.newId == old(nextId) && nextId == old(nextId) + 1
                && rows == old(rows) + [Agreement(r.newId, f.company, f.person, f.designation, f.contact, f.email,
                                                  f.startDate, f.endDate, f.storedPath, None, Active,
                                                  f.secondPerson, f.secondEmail)]
    {
      if !f.startParses {
        return UploadInvalidStartDate;
      }
      if f.filename.None? || f.filename.value == "" {
        return NoFile;
      }
      if !f.fileSaved {
        return UploadSaveFailed;
      }
      var a := Agreement(nextId, f.company, f.person, f.designation, f.contact, f.email, f.startDate, f.endDate,
                         f.storedPath, None, Active, f.secondPerson, f.secondEmail);
      var before := rows;
      rows := rows + [a];
      assert forall i :: 0 <= i < |before| ==> rows[i] == before[i];
      r := Uploaded(nextId);
      nextId := nextId + 1;
    }

    /** dashboard: every row is refreshed (and stored so); the charts get the
        day counts, bucketed; a table without rows has no charts. */
    method Dashboard(today: int) returns (noAgreements: bool, counts: Counts)
      requires Valid()
      modifies this
      ensures Valid()
      ensures rows == RefreshSeq(old(rows), today) && nextId == old(nextId)
      ensures noAgreements <==> old(rows) == []
      ensures counts == TallyDays(DaysOf(old(rows), today))
    {
      noAgreements := rows == [];
      var table, days := ScanDashboard(rows, today);
      counts := CountBuckets(days);
      RefreshSeqKeepsWellFormed(rows, today, nextId);
      rows := table;
    }

    /** view_agreements: every row is refreshed (and stored so); the listed rows
        are the ones whose refreshed status passes the filter, known day counts
        ascending, None last. */
    method ViewAgreements(today: int, statusFilter: string) returns (view: seq<Listed>)
      requires Valid()
      modifies this
      ensures Valid()
      ensures rows == RefreshSeq(old(rows), today) && nextId == old(nextId)
      ensures view == SortByDays(ViewRows(old(rows), today, statusFilter))
      ensures multiset(view) == multiset(ViewRows(old(rows), today, statusFilter))
      ensures forall i, j :: 0 <= i < j < |view| && view[i].days.None? ==> view[j].days.None?
    {
      var table, enriched := ScanView(rows, today, statusFilter);
      RefreshSeqKeepsWellFormed(rows, today, nextId);
      rows := table;
      view := SortByDays(enriched);
    }

    /** expiring_agreements: every row is refreshed (and stored so); the counts
        bucket every day count; the listed rows lie in 0..60 and pass both
        filters, in ascending order of days. */
    method ExpiringAgreements(today: int, rangeFilter: string, statusFilter: string)
      returns (table: seq<Listed>, counts: Counts)
      requires Valid()
      modifies this
      ensures Valid()
      ensures rows == RefreshSeq(old(rows), today) && nextId == old(nextId)
      ensures counts == TallyDays(DaysOf(old(rows), today))
      ensures table == SortByDays(ExpiringRows(old(rows), today, rangeFilter, statusFilter))
      ensures multiset(table) == multiset(ExpiringRows(old(rows), today, rangeFilter, statusFilter))
      ensures SortedByDays(table) && forall x :: x in table ==> InWindow(x.days)
    {
      var updated, expiring;
      updated, counts, expiring := ScanExpiring(rows, today, rangeFilter, statusFilter);
      ExpiringRowsSpec(rows, today, rangeFilter, statusFilter);
      RefreshSeqKeepsWellFormed(rows, today, nextId);
      rows := updated;
      table := SortByDays(expiring);
      forall x | x in table
        ensures InWindow(x.days)
      {
        assert x in multiset(expiring);
      }
    }

    /** renew_agreement (POST): an unknown id changes nothing, nor does a start
        date that does not parse or a document that is not stored;
        otherwise the old row becomes 'Renewed' and a new 'Active' row linked
        to it is inserted. */
    method RenewAgreement(id: nat, f: RenewForm) returns (r: RenewOutcome)
      requires Valid()
      modifies this
      ensures Valid()
      ensures IndexOf(old(rows), id).None? ==> r == RenewNotFound && rows == old(rows) && nextId == old(nextId)
      ensures IndexOf(old(rows), id).Some? && !f.startParses ==>
                r == InvalidStartDate && rows == old(rows) && nextId == old(nextId)
      ensures IndexOf(old(rows), id).Some? && f.startParses && !RenewalSaved(f) ==>
                r == SaveFailed && rows == old(rows) && nextId == old(nextId)
      ensures IndexOf(old(rows), id).Some? && f.startParses && RenewalSaved(f) ==>
                && r == RenewedAs(old(nextId)) && nextId == old(nextId) + 1
                && rows == RenewRows(old(rows), IndexOf(old(rows), id).value, old(nextId), f)
    {
      var k := IndexOf(rows, id);
      if k.None? {
        return RenewNotFound;
      }
      if !f.startParses {
        return InvalidStartDate;
      }
      if !RenewalSaved(f) {
        return SaveFailed;
      }
      var renewed := rows[k.value];
      rows := rows[k.value := renewed.(status := RenewedStatus)] + [RenewalRow(nextId, renewed, f)];
      r := RenewedAs(nextId);
      nextId := nextId + 1;
    }

    /** agreement_history: the linked rows from id, oldest first, with their
        statuses refreshed; each visited row is stored refreshed. */
    method AgreementHistory(id: nat, today: int) returns (chain: seq<Agreement>)
      requires Valid()
      modifies this
      ensures Valid()
      ensures chain == History(old(rows), id, today)
      ensures nextId == old(nextId) && |rows| == |old(rows)|
      ensures forall j :: 0 <= j < |rows| ==>
                rows[j] == if old(rows)[j] in Chain(old(rows), Some(id)) then Refreshed(old(rows)[j], today) else old(rows)[j]
    {
      var table;
      table, chain := WalkHistory(rows, id, today, nextId);
      RefreshKeepsWellFormed(rows, table, today, nextId);
      rows := table;
    }

    /** remove_agreement: an unknown id changes nothing; otherwise the links to
        it are cleared and its row is deleted. */
    method RemoveAgreement(id: nat) returns (found: bool)
      requires Valid()
      modifies this
      ensures Valid()
      ensures found <==> IndexOf(old(rows), id).Some?
      ensures rows == if found then Removed(old(rows), id) else old(rows)
      ensures nextId == old(nextId)
    {
      found := IndexOf(rows, id).Some?;
      if found {
        RemoveKeepsWellFormed(rows, id, nextId);
        rows := Removed(rows, id);
      }
    }

    /** terminate_agreement: an unknown id changes nothing; otherwise the row's
        end date becomes today and its status 'Expired'. */
    method TerminateAgreement(id: nat, today: int) returns (found: bool)
      requires Valid()
      modifies this
      ensures Valid()
      ensures found <==> IndexOf(old(rows), id).Some?
      ensures rows == if found then old(rows)[IndexOf(old(rows), id).value := Terminated(old(rows)[IndexOf(old(rows), id).value], today)]
                      else old(rows)
      ensures nextId == old(nextId)
    {
      var k := IndexOf(rows, id);
      found := k.Some?;
      if found {
        rows := rows[k.value := Terminated(rows[k.value], today)];
      }
    }
  }

  /** The loop of dashboard over the table orig: refresh each row and
      collect its day count. */
  method ScanDashboard(orig: seq<Agreement>, today: int) returns (updated: seq<Agreement>, days: seq<Option<int>>)
    ensures updated == RefreshSeq(orig, today)
    ensures days == DaysOf(orig, today)
  {
    updated := orig;
    days := [];
    for i := 0 to |orig|
      invariant updated == RefreshSeq(orig[..i], today) + orig[i..]
      invariant days == DaysOf(orig[..i], today)
    {
      var a := orig[i];
      var d := DaysRemaining(a, today);
      ghost var before := updated;
      ghost var stored := false;
      if a.status == Active && d.Some? && a.endDate.value <= today {
        updated := updated[i := a.(status := Expired)];
        stored := true;
      }
      RefreshStep(orig, i, before, updated, stored, today);
      DaysOfStep(orig, i, today);
      days := days + [d];
    }
    assert orig[..|orig|] == orig;
    assert updated == RefreshSeq(orig, today) + [];
  }

  /** The loop of view_agreements over the table orig: refresh each row and
      collect the rows whose refreshed status passes the filter. */
  method ScanView(orig: seq<Agreement>, today: int, statusFilter: string) returns (updated: seq<Agreement>, enriched: seq<Listed>)
    ensures updated == RefreshSeq(orig, today)
    ensures enriched == ViewRows(orig, today, statusFilter)
  {
    updated := orig;
    enriched := [];
    for i := 0 to |orig|
      invariant updated == RefreshSeq(orig[..i], today) + orig[i..]
      invariant enriched == ViewRows(orig[..i], today, statusFilter)
    {
      var a := orig[i];
      var d := DaysRemaining(a, today);
      var status := a.status;
      ghost var before := updated;
      ghost var stored := false;
      if status == Active && d.Some? && a.endDate.value <= today {
        status := Expired;
        updated := updated[i := a.(status := Expired)];
        stored := true;
      }
      assert status == RefreshedStatus(a, today);
      RefreshStep(orig, i, before, updated, stored, today);
      ViewStep(orig, i, today, statusFilter);
      if statusFilter == "all" || status == statusFilter {
        enriched := enriched + [Listed(a.(status := status), d)];
      }
    }
    assert orig[..|orig|] == orig;
    assert updated == RefreshSeq(orig, today) + [];
  }

  /** One pass of the dashboard loop adds the day count of row i. */
  lemma DaysOfStep(orig: seq<Agreement>, i: nat, today: int)
    requires i < |orig|
    ensures DaysOf(orig[..i + 1], today) == DaysOf(orig[..i], today) + [DaysRemaining(orig[i], today)]
  {
    assert orig[..i + 1][..i] == orig[..i];
  }

  /** One pass of the view loop adds row i when its refreshed status passes. */
  lemma ViewStep(orig: seq<Agreement>, i: nat, today: int, statusFilter: string)
    requires i < |orig|
    ensures ViewRows(orig[..i + 1], today, statusFilter)
            == ViewRows(orig[..i], today, statusFilter)
               + (if StatusMatches(statusFilter, RefreshedStatus(orig[i], today)) then [Enrich(orig[i], today)] else [])
  {
    assert orig[..i + 1][..i] == orig[..i];
  }

  /** The loop of expiring_agreements over the table orig: refresh each row,
      bucket the day counts that lie in 0..60, and collect the rows of the
      window that pass both filters. */
  method ScanExpiring(orig: seq<Agreement>, today: int, rangeFilter: string, statusFilter: string)
    returns (updated: seq<Agreement>, counts: Counts, expiring: seq<Listed>)
    ensures updated == RefreshSeq(orig, today)
    ensures counts == TallyDays(DaysOf(orig, today))
    ensures expiring == ExpiringRows(orig, today, rangeFilter, statusFilter)
  {
    updated := orig;
    expiring := [];
    counts := Counts(0, 0, 0);
    for i := 0 to |orig|
      invariant updated == RefreshSeq(orig[..i], today) + orig[i..]
      invariant counts == TallyDays(DaysOf(orig[..i], today))
      invariant expiring == ExpiringRows(orig[..i], today, rangeFilter, statusFilter)
    {
      var a := orig[i];
      var d := DaysRemaining(a, today);
      var status := a.status;
      ghost var before := updated;
      ghost var stored := false;
      if status == Active && d.Some? && a.endDate.value <= today {
        status := Expired;
        updated := updated[i := a.(status := Expired)];
        stored := true;
      }
      assert status == RefreshedStatus(a, today);
      RefreshStep(orig, i, before, updated, stored, today);
      TallyStep(orig, i, today);
      ExpiringStep(orig, i, today, rangeFilter, statusFilter);
      if d.Some? && 0 <= d.value <= 60 {
        counts := Count(counts, d);
        if RangeMatches(rangeFilter, d.value) && (statusFilter == "all" || status == statusFilter) {
          expiring := expiring + [Listed(a.(status := status), d)];
        }
      }
    }
    assert orig[..|orig|] == orig;
    assert updated == RefreshSeq(orig, today) + [];
  }

  /** One pass of the expiring loop counts row i when it lies in the window. */
  lemma TallyStep(orig: seq<Agreement>, i: nat, today: int)
    requires i < |orig|
    ensures var d := DaysRemaining(orig[i], today);
            TallyDays(DaysOf(orig[..i + 1], today))
            == if InWindow(d) then Count(TallyDays(DaysOf(orig[..i], today)), d) else TallyDays(DaysOf(orig[..i], today))
  {
    DaysOfStep(orig, i, today);
    var ds := DaysOf(orig[..i], today);
    assert (ds + [DaysRemaining(orig[i], today)])[..|ds|] == ds;
  }

  /** One pass of the expiring loop adds row i when it lies in the window and
      passes both filters. */
  lemma ExpiringStep(orig: seq<Agreement>, i: nat, today: int, rangeFilter: string, statusFilter: string)
    requires i < |orig|
    ensures var d := DaysRemaining(orig[i], today);
            ExpiringRows(orig[..i + 1], today, rangeFilter, statusFilter)
            == ExpiringRows(orig[..i], today, rangeFilter, statusFilter)
               + (if InWindow(d) && RangeMatches(rangeFilter, d.value) && StatusMatches(statusFilter, RefreshedStatus(orig[i], today))
                  then [Enrich(orig[i], today)] else [])
  {
    assert orig[..i + 1][..i] == orig[..i];
  }

  /** One pass of a refresh loop: row i is stored refreshed, or left alone
      when refreshing would not change it. */
  lemma RefreshStep(orig: seq<Agreement>, i: nat, before: seq<Agreement>, after: seq<Agreement>, stored: bool, today: int)
    requires i < |orig| && before == RefreshSeq(orig[..i], today) + orig[i..]
    requires stored ==> after == before[i := Refreshed(orig[i], today)]
    requires !stored ==> after == before && Refreshed(orig[i], today) == orig[i]
    ensures after == RefreshSeq(orig[..i + 1], today) + orig[i + 1..]
  {
    var done := RefreshSeq(orig[..i], today);
    var r := Refreshed(orig[i], today);
    assert orig[..i + 1] == orig[..i] + [orig[i]];
    RefreshSeqAppend(orig[..i], orig[i], today);
    if stored {
      ReplaceAtBoundary(done, orig, r);
    } else {
      ReplaceAtBoundary(done, orig, orig[i]);
      SameAtBoundary(done, orig);
    }
  }

  /** In a sequence made of a finished prefix and the rest of orig, writing
      position |done| extends the prefix by one. */
  lemma ReplaceAtBoundary<T>(done: seq<T>, orig: seq<T>, x: T)
    requires |done| < |orig|
    ensures (done + orig[|done|..])[|done| := x] == (done + [x]) + orig[|done| + 1..]
  {
  }

  /** Writing position |done| with the value already there changes nothing. */
  lemma SameAtBoundary<T>(done: seq<T>, orig: seq<T>)
    requires |done| < |orig|
    ensures (done + orig[|done|..])[|done| := orig[|done|]] == done + orig[|done|..]
  {
  }

  /** The loop of agreement_history on the table orig: follow the links from
      id, refresh each row met the way the dashboard does, and collect the
      rows, newest first, before reversing them. */
  method WalkHistory(orig: seq<Agreement>, id: nat, today: int, ghost n: nat) returns (table: seq<Agreement>, chain: seq<Agreement>)
    requires WellFormed(orig, n)
    ensures chain == History(orig, id, today)
    ensures |table| == |orig|
    ensures forall j :: 0 <= j < |table| ==>
              table[j] == if orig[j] in Chain(orig, Some(id)) then Refreshed(orig[j], today) else orig[j]
  {
    table := orig;
    var cur: Option<nat> := Some(id);
    ghost var visited: seq<Agreement> := [];
    chain := [];
    while cur.Some? && cur.value != 0
      invariant table == RefreshedIn(orig, visited, today)
      invariant visited + Chain(orig, cur) == Chain(orig, Some(id))
      invariant chain == RefreshSeq(visited, today)
      decreases if cur.Some? then cur.value else 0
    {
      RefreshedInIds(orig, visited, today);
      SameIdsSameIndex(table, orig, cur.value);
      var k := IndexOf(table, cur.value);
      if k.None? {
        assert Chain(orig, cur) == [];
        break;
      }
      var row := table[k.value];
      ghost var before := table;
      if row.status == Active && row.endDate.Some? && row.endDate.value <= today {
        row := row.(status := Expired);
        table := table[k.value := row];
      }
      MarkVisited(orig, before, table, visited, k.value, today, n);
      assert row == Refreshed(orig[k.value], today);
      StepChain(orig, visited, cur, id, k.value);
      assert row.previous == orig[k.value].previous;
      RefreshSeqAppend(visited, orig[k.value], today);
      visited := visited + [orig[k.value]];
      chain := chain + [row];
      cur := row.previous;
    }
    assert visited == Chain(orig, Some(id));
    chain := Reverse(chain);
    assert |table| == |orig|;
  }

  /** One step along the chain: the row at cur joins the visited prefix. */
  lemma StepChain(rows: seq<Agreement>, visited: seq<Agreement>, cur: Option<nat>, id: nat, k: nat)
    requires LinksDescend(rows)
    requires cur.Some? && cur.value != 0 && IndexOf(rows, cur.value) == Some(k)
    requires visited + Chain(rows, cur) == Chain(rows, Some(id))
    ensures (visited + [rows[k]]) + Chain(rows, rows[k].previous) == Chain(rows, Some(id))
  {
    assert Chain(rows, cur) == [rows[k]] + Chain(rows, rows[k].previous);
    assert (visited + [rows[k]]) + Chain(rows, rows[k].previous) == visited + ([rows[k]] + Chain(rows, rows[k].previous));
  }

  /** The table once the rows in visited have been refreshed in place. */
  function RefreshedIn(orig: seq<Agreement>, visited: seq<Agreement>, today: int): (t: seq<Agreement>)
    ensures |t| == |orig|
    ensures forall j :: 0 <= j < |orig| ==> t[j] == if orig[j] in visited then Refreshed(orig[j], today) else orig[j]
  {
    seq(|orig|, j requires 0 <= j < |orig| => if orig[j] in visited then Refreshed(orig[j], today) else orig[j])
  }

  /** Refreshing never changes an id. */
  lemma RefreshedInIds(orig: seq<Agreement>, visited: seq<Agreement>, today: int)
    ensures forall j :: 0 <= j < |orig| ==> RefreshedIn(orig, visited, today)[j].id == orig[j].id
  {
  }

  /** Storing the refreshed row k marks it visited; with unique ids no other
      row is the same record. */
  lemma MarkVisited(orig: seq<Agreement>, before: seq<Agreement>, after: seq<Agreement>, visited: seq<Agreement>,
                    k: nat, today: int, nextId: nat)
    requires WellFormed(orig, nextId)
    requires k < |orig| && before == RefreshedIn(orig, visited, today)
    requires after == before || after == before[k := Refreshed(before[k], today)]
    requires after == before ==> Refreshed(before[k], today) == before[k]
    ensures after == RefreshedIn(orig, visited + [orig[k]], today)
  {
    forall j | 0 <= j < |after|
      ensures after[j] == if orig[j] in visited + [orig[k]] then Refreshed(orig[j], today) else orig[j]
    {
      if j != k {
        assert orig[j] != orig[k] by {
          if j < k {
            assert orig[j].id != orig[k].id;
          } else {
            assert orig[k].id != orig[j].id;
          }
        }
      }
    }
  }

  /** Refreshing every row, as the dashboard and the listings do, keeps the table well formed. */
  lemma RefreshSeqKeepsWellFormed(rows: seq<Agreement>, today: int, nextId: nat)
    requires WellFormed(rows, nextId)
    ensures WellFormed(RefreshSeq(rows, today), nextId)
  {
    RefreshKeepsWellFormed(rows, RefreshSeq(rows, today), today, nextId);
  }

  /** Refreshing statuses, as the listing routes and agreement_history do,
      keeps the table well formed: it touches no id and no link. */
  lemma RefreshKeepsWellFormed(rows: seq<Agreement>, after: seq<Agreement>, today: int, nextId: nat)
    requires WellFormed(rows, nextId)
    requires |after| == |rows| && forall j :: 0 <= j < |rows| ==> after[j] == rows[j] || after[j] == Refreshed(rows[j], today)
    ensures WellFormed(after, nextId)
  {
    assert forall j :: 0 <= j < |rows| ==> after[j].id == rows[j].id && after[j].previous == rows[j].previous;
  }

  /** Removing keeps ids positive, unique and below nextId, and links older. */
  lemma RemoveKeepsWellFormed(rows: seq<Agreement>, id: nat, nextId: nat)
    requires WellFormed(rows, nextId)
    ensures WellFormed(Removed(rows, id), nextId)
  {
    UnlinkKeepsWellFormed(rows, id, nextId);
    WithoutKeepsWellFormed(Unlink(rows, id), id, nextId);
  }

  /** Clearing links keeps the table well formed. */
  lemma UnlinkKeepsWellFormed(rows: seq<Agreement>, id: nat, nextId: nat)
    requires WellFormed(rows, nextId)
    ensures WellFormed(Unlink(rows, id), nextId)
  {
    var u := Unlink(rows, id);
    assert forall i :: 0 <= i < |u| ==> u[i].id == rows[i].id;
  }

  /** Deleting rows keeps the table well formed. */
  lemma WithoutKeepsWellFormed(rows: seq<Agreement>, id: nat, nextId: nat)
    requires WellFormed(rows, nextId)
    ensures WellFormed(Without(rows, id), nextId)
  {
    WithoutKeepsUnique(rows, id);
    var r := Without(rows, id);
    forall i | 0 <= i < |r|
      ensures 1 <= r[i].id < nextId
      ensures r[i].previous.Some? ==> r[i].previous.value < r[i].id
    {
      assert r[i] in rows;
    }
  }

  /** Filtering rows out keeps ids unique. */
  lemma {:induction false} WithoutKeepsUnique(rows: seq<Agreement>, id: nat)
    requires UniqueIds(rows)
    ensures UniqueIds(Without(rows, id))
  {
    if rows != [] {
      assert UniqueIds(rows[1..]) by {
        forall i, j | 0 <= i < j < |rows[1..]|
          ensures rows[1..][i].id != rows[1..][j].id
        {
          assert rows[1..][i] == rows[i + 1] && rows[1..][j] == rows[j + 1];
        }
      }
      WithoutKeepsUnique(rows[1..], id);
      HeadIdFresh(rows, id);
      if rows[0].id != id {
        ConsKeepsUnique(rows[0], Without(rows[1..], id));
        assert Without(rows, id) == [rows[0]] + Without(rows[1..], id);
      } else {
        assert Without(rows, id) == Without(rows[1..], id);
      }
    }
  }

  /** With unique ids no row after the first shares its id, so neither does
      any row filtering the rest keeps. */
  lemma HeadIdFresh(rows: seq<Agreement>, id: nat)
    requires UniqueIds(rows) && rows != []
    ensures forall x :: x in Without(rows[1..], id) ==> x.id != rows[0].id
  {
    forall x | x in Without(rows[1..], id)
      ensures x.id != rows[0].id
    {
      assert x in rows[1..];
      var k :| 0 <= k < |rows[1..]| && rows[1..][k] == x;
      assert rows[k + 1] == x;
    }
  }

  /** A row whose id no later row has keeps ids unique in front of them. */
  lemma ConsKeepsUnique(a: Agreement, rest: seq<Agreement>)
    requires UniqueIds(rest)
    requires forall x :: x in rest ==> x.id != a.id
    ensures UniqueIds([a] + rest)
  {
    var r := [a] + rest;
    forall i, j | 0 <= i < j < |r|
      ensures r[i].id != r[j].id
    {
      assert r[j] == rest[j - 1];
      if i == 0 {
        assert rest[j - 1] in rest;
      } else {
        assert r[i] == rest[i - 1];
      }
    }
  }

  /** The terminated row: end date today, status 'Expired'. */
  function Terminated(a: Agreement, today: int): Agreement {
    a.(endDate := Some(today), status := Expired)
  }

  /** A terminated agreement has 0 days left on the day it was terminated, so
      the expiring summary counts it under '0-10', and it stays 'Expired'
      whatever day the status is refreshed on. */
  lemma TerminatedSpec(a: Agreement, today: int, later: int)
    ensures DaysRemaining(Terminated(a, today), today) == Some(0)
    ensures Bucket(DaysRemaining(Terminated(a, today), today)) == Some(UpTo10)
    ensures RefreshedStatus(Terminated(a, today), later) == Expired
  {
  }
}
