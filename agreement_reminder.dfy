/**
 * The agreement_reminder_new application: agreements owned by users, each with
 * one current start and end date and a counter of renewals, and a table of
 * renewal records that keep the dates each renewal replaced. Dates are day
 * numbers; today is a parameter. The SQLite tables are sequences of records
 * in a class; the uploads folder is the set of file paths that exist, and the
 * removed_agreements folder the set of names that exist in it.
 */
module AgreementReminder {
  import opened Wrappers
  import opened Text

  datatype Agreement = Agreement(id: nat, userId: nat, company: string, person: string, email: Option<string>,
                                 startDate: int, endDate: int, filePath: string, renewalCount: nat)

  /** The dates an agreement had before a renewal, and the day of the renewal. */
  datatype Renewal = Renewal(agreementId: nat, startDate: int, endDate: int, renewalDate: int)

  // ---------------------------------------------------------------------------
  // Uploads

  const Extensions: set<string> := {"pdf", "jpg", "jpeg", "png"}

  /** allowed_file with the ALLOWED_EXTENSIONS of this application. */
  predicate AllowedUpload(filename: string) {
    AllowedFile(filename, Extensions)
  }

  /** A name with an extension is allowed exactly when the extension, in any
      case, is pdf, jpg, jpeg or png. */
  lemma AllowedUploadSpec(stem: string, ext: string)
    requires '.' !in ext
    ensures AllowedUpload(stem + "." + ext) <==> Lower(ext) in Extensions
  {
    AllowedFileByExtension(stem, ext, Extensions);
  }

  // ---------------------------------------------------------------------------
  // Days left and the 60-day window

  /** days_left of all_agreements: the days until the end date, 0 once it has
      passed. */
  function DaysLeft(a: Agreement, today: int): (d: nat)
    ensures a.endDate >= today ==> today + d == a.endDate
    ensures a.endDate < today ==> d == 0
  {
    if a.endDate >= today then a.endDate - today else 0
  }

  /** No day is left exactly when the end date is today or earlier. */
  lemma DaysLeftZero(a: Agreement, today: int)
    ensures DaysLeft(a, today) == 0 <==> a.endDate <= today
    ensures DaysLeft(a, today) >= a.endDate - today
  {
  }

  /** The expiring filter: the end date lies in today..today+60. */
  predicate ExpiresSoon(a: Agreement, today: int) {
    a.endDate <= today + 60 && a.endDate >= today
  }

  /** filter_by(user_id=...): the rows of one user, in table order. */
  function Mine(rows: seq<Agreement>, user: nat): (r: seq<Agreement>)
    ensures |r| <= |rows|
    ensures forall a :: a in r <==> a in rows && a.userId == user
  {
    if rows == [] then []
    else Mine(rows[..|rows| - 1], user) + (if rows[|rows| - 1].userId == user then [rows[|rows| - 1]] else [])
  }

  /** The comprehension of expiring_agreements and send_expiry_emails. */
  function Expiring(rows: seq<Agreement>, today: int): (r: seq<Agreement>)
    ensures |r| <= |rows|
  {
    if rows == [] then []
    else Expiring(rows[..|rows| - 1], today) + (if ExpiresSoon(rows[|rows| - 1], today) then [rows[|rows| - 1]] else [])
  }

  /** The filter keeps exactly the rows in the window. */
  lemma {:induction false} ExpiringMembers(rows: seq<Agreement>, today: int)
    ensures forall a :: a in Expiring(rows, today) <==> a in rows && ExpiresSoon(a, today)
  {
    if rows != [] {
      var init := rows[..|rows| - 1];
      ExpiringMembers(init, today);
      assert rows == init + [rows[|rows| - 1]];
    }
  }

  /** The filter keeps the original order: filtering two tables one after the
      other is filtering them joined. */
  lemma {:induction false} ExpiringAppend(a: seq<Agreement>, b: seq<Agreement>, today: int)
    ensures Expiring(a + b, today) == Expiring(a, today) + Expiring(b, today)
    decreases |b|
  {
    if b != [] {
      var b' := b[..|b| - 1];
      assert (a + b)[..|a + b| - 1] == a + b';
      assert (a + b)[|a + b| - 1] == b[|b| - 1];
      ExpiringAppend(a, b', today);
    } else {
      assert a + b == a;
    }
  }

  /** A table whose every row lies in the window is kept whole. */
  lemma {:induction false} ExpiringAll(rows: seq<Agreement>, today: int)
    requires forall i :: 0 <= i < |rows| ==> ExpiresSoon(rows[i], today)
    ensures Expiring(rows, today) == rows
  {
    if rows != [] {
      var init := rows[..|rows| - 1];
      ExpiringAll(init, today);
      assert ExpiresSoon(rows[|rows| - 1], today);
      assert Expiring(rows, today) == init + [rows[|rows| - 1]];
      assert init + [rows[|rows| - 1]] == rows;
    }
  }

  /** The days of an expiring agreement lie in 0..60 and are its days left. */
  lemma ExpiringDays(a: Agreement, today: int)
    requires ExpiresSoon(a, today)
    ensures 0 <= a.endDate - today <= 60 && a.endDate - today == DaysLeft(a, today)
  {
  }

  /** The dashboard's expiring_soon: one for each row in the window. */
  function ExpiringSoon(rows: seq<Agreement>, today: int): nat {
    if rows == [] then 0
    else ExpiringSoon(rows[..|rows| - 1], today) + (if ExpiresSoon(rows[|rows| - 1], today) then 1 else 0)
  }

  /** The dashboard's count and the expiring page's count are the same number. */
  lemma {:induction false} ExpiringSoonCount(rows: seq<Agreement>, today: int)
    ensures ExpiringSoon(rows, today) == |Expiring(rows, today)|
  {
    if rows != [] {
      ExpiringSoonCount(rows[..|rows| - 1], today);
    }
  }

  /** A row of a listing: the agreement and its days left. */
  datatype WithDays = WithDays(agreement: Agreement, daysLeft: int)

  /** A row of the reminder email's table; a missing or empty email is "-". */
  datatype MailLine = MailLine(company: string, person: string, email: string, startDate: int, endDate: int,
                               daysLeft: int, renewalCount: nat)

  function MailLineOf(w: WithDays): MailLine {
    var a := w.agreement;
    MailLine(a.company, a.person, if a.email.Some? && a.email.value != "" then a.email.value else "-",
             a.startDate, a.endDate, w.daysLeft, a.renewalCount)
  }

  // ---------------------------------------------------------------------------
  // Lookup and ownership

  /** The position of the row with the given id (the primary key). */
  function Find(rows: seq<Agreement>, id: nat): (r: Option<nat>)
    ensures r.Some? ==> r.value < |rows| && rows[r.value].id == id
    ensures r.None? ==> forall j :: 0 <= j < |rows| ==> rows[j].id != id
  {
    if rows == [] then None
    else if rows[0].id == id then Some(0)
    else match Find(rows[1..], id)
         case None => None
         case Some(k) => Some(k + 1)
  }

  predicate UniqueIds(rows: seq<Agreement>) {
    forall i, j :: 0 <= i < j < |rows| ==> rows[i].id != rows[j].id
  }

  /** get_or_404 followed by the user check of remove, renew and download. */
  datatype Access = NotFound | Unauthorized | Owned(index: nat)

  function Authorize(rows: seq<Agreement>, id: nat, user: nat): (r: Access)
    ensures r == NotFound <==> Find(rows, id).None?
    ensures r == Unauthorized <==> Find(rows, id).Some? && rows[Find(rows, id).value].userId != user
    ensures r.Owned? ==> r.index < |rows| && rows[r.index].id == id && rows[r.index].userId == user
  {
    match Find(rows, id)
    case None => NotFound
    case Some(k) => if rows[k].userId != user then Unauthorized else Owned(k)
  }

  /** The id SQLite gives a new row of a table whose key is a plain INTEGER
      PRIMARY KEY: one more than the largest id, or 1 for an empty table. */
  function NewId(rows: seq<Agreement>): (r: nat)
    ensures r >= 1 && forall i :: 0 <= i < |rows| ==> rows[i].id < r
  {
    if rows == [] then 1
    else var m := NewId(rows[..|rows| - 1]);
         if rows[|rows| - 1].id < m then m else rows[|rows| - 1].id + 1
  }

  // ---------------------------------------------------------------------------
  // Renewal records

  /** The number of renewal records of one agreement. */
  function RenewalCount(renewals: seq<Renewal>, id: nat): nat {
    if renewals == [] then 0
    else RenewalCount(renewals[..|renewals| - 1], id) + (if renewals[|renewals| - 1].agreementId == id then 1 else 0)
  }

  /** One more record counts for its own agreement only. */
  lemma RenewalCountAppend(renewals: seq<Renewal>, r: Renewal, id: nat)
    ensures RenewalCount(renewals + [r], id) == RenewalCount(renewals, id) + (if r.agreementId == id then 1 else 0)
  {
    assert (renewals + [r])[..|renewals|] == renewals;
  }

  /** With no record for an agreement its count is 0. */
  lemma {:induction false} RenewalCountAbsent(renewals: seq<Renewal>, id: nat)
    requires forall i :: 0 <= i < |renewals| ==> renewals[i].agreementId != id
    ensures RenewalCount(renewals, id) == 0
  {
    if renewals != [] {
      RenewalCountAbsent(renewals[..|renewals| - 1], id);
    }
  }

  /** AgreementRenewal.query.filter_by(agreement_id=id).delete(). */
  function DropRenewals(renewals: seq<Renewal>, id: nat): (r: seq<Renewal>)
    ensures forall x :: x in r <==> x in renewals && x.agreementId != id
  {
    if renewals == [] then []
    else DropRenewals(renewals[..|renewals| - 1], id)
         + (if renewals[|renewals| - 1].agreementId != id then [renewals[|renewals| - 1]] else [])
  }

  /** Deleting the records of one agreement leaves it none and every other
      agreement all of its own. */
  lemma {:induction false} DropRenewalsCount(renewals: seq<Renewal>, id: nat, other: nat)
    ensures RenewalCount(DropRenewals(renewals, id), other) == if other == id then 0 else RenewalCount(renewals, other)
  {
    if renewals != [] {
      var init := renewals[..|renewals| - 1];
      var last := renewals[|renewals| - 1];
      DropRenewalsCount(init, id, other);
      assert RenewalCount(renewals, other) == RenewalCount(init, other) + (if last.agreementId == other then 1 else 0);
      if last.agreementId != id {
        assert DropRenewals(renewals, id) == DropRenewals(init, id) + [last];
        RenewalCountAppend(DropRenewals(init, id), last, other);
      } else {
        assert DropRenewals(renewals, id) == DropRenewals(init, id);
      }
    }
  }

  // ---------------------------------------------------------------------------
  // Names in the removed_agreements folder

  /** True when every character is a dot. */
  predicate AllDots(s: string) {
    forall j :: 0 <= j < |s| ==> s[j] == '.'
  }

  /** os.path.splitext of a base name: the extension starts at the last dot,
      unless only dots come before it; then there is none. */
  function SplitExt(name: string): (r: (string, string))
    ensures r.0 + r.1 == name
    ensures r.1 == [] || (r.1[0] == '.' && '.' !in r.1[1..])
  {
    var e := AfterLast(name, '.');
    if |e| == |name| then (name, [])
    else
      var i := |name| - |e| - 1;
      if AllDots(name[..i]) then (name, [])
      else (name[..i], name[i..])
  }

  /** The k-th name tried for a file: the name itself, then base_k.ext. */
  function Probe(name: string, k: nat): string {
    if k == 0 then name else SplitExt(name).0 + "_" + Decimal(k) + SplitExt(name).1
  }

  /** Different tries give different names. */
  lemma ProbeInjective(name: string, i: nat, j: nat)
    requires Probe(name, i) == Probe(name, j)
    ensures i == j
  {
    var b, e := SplitExt(name).0, SplitExt(name).1;
    if i > 0 && j > 0 {
      var p, q := Probe(name, i), Probe(name, j);
      assert |Decimal(i)| == |Decimal(j)|;
      assert p[|b| + 1..|b| + 1 + |Decimal(i)|] == Decimal(i);
      assert q[|b| + 1..|b| + 1 + |Decimal(j)|] == Decimal(j);
      DecimalInjective(i, j);
    }
  }

  /** The names tried before the k-th. */
  function Probed(name: string, k: nat): set<string> {
    set j | 0 <= j < k :: Probe(name, j)
  }

  /** One more try adds its name. */
  lemma ProbedStep(name: string, k: nat)
    requires k > 0
    ensures Probed(name, k) == Probed(name, k - 1) + {Probe(name, k - 1)}
  {
    forall x | x in Probed(name, k)
      ensures x in Probed(name, k - 1) + {Probe(name, k - 1)}
    {
      var j :| 0 <= j < k && x == Probe(name, j);
      if j < k - 1 {
        assert x in Probed(name, k - 1);
      }
    }
    forall x | x in Probed(name, k - 1) + {Probe(name, k - 1)}
      ensures x in Probed(name, k)
    {
      if x in Probed(name, k - 1) {
        var j :| 0 <= j < k - 1 && x == Probe(name, j);
        assert x == Probe(name, j);
      } else {
        assert x == Probe(name, k - 1);
      }
    }
  }

  lemma {:induction false} ProbedSize(name: string, k: nat)
    ensures |Probed(name, k)| == k
  {
    if k > 0 {
      ProbedSize(name, k - 1);
      ProbedStep(name, k);
      if Probe(name, k - 1) in Probed(name, k - 1) {
        var j :| 0 <= j < k - 1 && Probe(name, j) == Probe(name, k - 1);
        ProbeInjective(name, j, k - 1);
      }
    }
  }

  /** The rename loop of remove_agreement: the name itself when it is free,
      otherwise base_k.ext for the smallest k >= 1 not taken. */
  method FreeName(filename: string, taken: set<string>) returns (name: string, counter: nat)
    ensures counter >= 1 && name == Probe(filename, counter - 1)
    ensures name !in taken
    ensures forall j :: 0 <= j < counter - 1 ==> Probe(filename, j) in taken
    ensures name == filename <==> filename !in taken
  {
    var (base, extension) := SplitExt(filename);
    name := filename;
    counter := 1;
    while name in taken
      invariant counter >= 1 && name == Probe(filename, counter - 1)
      invariant Probed(filename, counter - 1) <= taken
      decreases |taken| - (counter - 1)
    {
      ProbeTaken(filename, counter, taken);
      name := base + "_" + Decimal(counter) + extension;
      counter := counter + 1;
    }
    FreeNameFirst(filename, counter, taken);
  }

  /** A taken k-th name adds one more taken name: at most |taken| tries. */
  lemma ProbeTaken(filename: string, counter: nat, taken: set<string>)
    requires counter >= 1 && Probed(filename, counter - 1) <= taken && Probe(filename, counter - 1) in taken
    ensures Probed(filename, counter) <= taken && counter <= |taken|
  {
    ProbedStep(filename, counter);
    ProbedSize(filename, counter);
    SubsetSize(Probed(filename, counter), taken);
  }

  /** Where the loop stops: every earlier name was taken, and the name itself
      is kept exactly when it is free. */
  lemma FreeNameFirst(filename: string, counter: nat, taken: set<string>)
    requires counter >= 1 && Probed(filename, counter - 1) <= taken && Probe(filename, counter - 1) !in taken
    ensures forall j :: 0 <= j < counter - 1 ==> Probe(filename, j) in taken
    ensures Probe(filename, counter - 1) == filename <==> filename !in taken
  {
    assert forall j :: 0 <= j < counter - 1 ==> Probe(filename, j) in Probed(filename, counter - 1);
    if counter > 1 {
      assert Probe(filename, 0) in Probed(filename, counter - 1);
    }
  }

  lemma SubsetSize(a: set<string>, b: set<string>)
    requires a <= b
    ensures |a| <= |b|
  {
    assert b == a + (b - a);
  }

  /** os.path.basename. */
  function Basename(path: string): (r: string)
    ensures '/' !in r && |r| <= |path| && r == path[|path| - |r|..]
  {
    AfterLast(path, '/')
  }

  /** Removing a row by position. */
  function RemoveAt(rows: seq<Agreement>, k: nat): (r: seq<Agreement>)
    requires k < |rows|
    ensures |r| == |rows| - 1
    ensures forall j :: 0 <= j < k ==> r[j] == rows[j]
    ensures forall j :: k <= j < |r| ==> r[j] == rows[j + 1]
  {
    rows[..k] + rows[k + 1..]
  }

  // ---------------------------------------------------------------------------
  // The store

  /** Unique ids from 1 up; every renewal belongs to an agreement; every
      agreement's renewal_count is its number of renewal records. */
  predicate Consistent(agreements: seq<Agreement>, renewals: seq<Renewal>) {
    && UniqueIds(agreements)
    && (forall i :: 0 <= i < |agreements| ==> agreements[i].id >= 1)
    && (forall i :: 0 <= i < |renewals| ==> Find(agreements, renewals[i].agreementId).Some?)
    && (forall i :: 0 <= i < |agreements| ==> agreements[i].renewalCount == RenewalCount(renewals, agreements[i].id))
  }

  /** The fields of a POST to /upload. The day numbers are what strptime
      makes of the date texts, None when they do not parse. */
  datatype UploadForm = UploadForm(company: Option<string>, person: Option<string>, email: Option<string>,
                                   startText: Option<string>, endText: Option<string>,
                                   startDay: Option<int>, endDay: Option<int>, filename: Option<string>)

  /** A form value is truthy when present and not empty. */
  predicate Truthy(f: Option<string>) {
    f.Some? && f.value != ""
  }

  predicate AllGiven(f: UploadForm) {
    Truthy(f.company) && Truthy(f.person) && Truthy(f.startText) && Truthy(f.endText) && Truthy(f.filename)
  }

  datatype UploadOutcome = MissingFields | InvalidFileType | UploadInvalidDate | Uploaded(id: nat)

  datatype RenewOutcome = RenewNotFound | RenewUnauthorized | RenewInvalidDate | Renewed

  datatype RemoveOutcome = RemoveNotFound | RemoveUnauthorized | Removed(movedTo: Option<string>)

  datatype DownloadOutcome = DownloadNotFound | DownloadUnauthorized | SendFile(directoryPath: string, name: string)

  lemma ConsistentUpload(agreements: seq<Agreement>, renewals: seq<Renewal>, a: Agreement)
    requires Consistent(agreements, renewals)
    requires a.id == NewId(agreements) && a.renewalCount == 0
    ensures Consistent(agreements + [a], renewals)
  {
    var after := agreements + [a];
    forall i | 0 <= i < |renewals|
      ensures renewals[i].agreementId != a.id
    {
      var k := Find(agreements, renewals[i].agreementId).value;
    }
    RenewalCountAbsent(renewals, a.id);
    forall i | 0 <= i < |renewals|
      ensures Find(after, renewals[i].agreementId).Some?
    {
      var k := Find(agreements, renewals[i].agreementId).value;
      assert after[k] == agreements[k];
    }
    assert forall i :: 0 <= i < |agreements| ==> after[i] == agreements[i];
  }

  lemma ConsistentRenew(agreements: seq<Agreement>, renewals: seq<Renewal>, k: nat, r: Renewal, a: Agreement)
    requires Consistent(agreements, renewals) && k < |agreements|
    requires r.agreementId == agreements[k].id && a.id == agreements[k].id
    requires a.renewalCount == agreements[k].renewalCount + 1
    ensures Consistent(agreements[k := a], renewals + [r])
  {
    var after := agreements[k := a];
    forall i | 0 <= i < |after|
      ensures after[i].renewalCount == RenewalCount(renewals + [r], after[i].id)
    {
      RenewalCountAppend(renewals, r, after[i].id);
      if i < k {
        assert agreements[i].id != agreements[k].id;
      } else if i > k {
        assert agreements[k].id != agreements[i].id;
      }
    }
    forall i | 0 <= i < |renewals + [r]|
      ensures Find(after, (renewals + [r])[i].agreementId).Some?
    {
      var x := (renewals + [r])[i].agreementId;
      if i < |renewals| {
        var j := Find(agreements, x).value;
        assert after[j].id == x;
      } else {
        assert after[k].id == x;
      }
    }
  }

  lemma ConsistentRemove(agreements: seq<Agreement>, renewals: seq<Renewal>, k: nat)
    requires Consistent(agreements, renewals) && k < |agreements|
    ensures Consistent(RemoveAt(agreements, k), DropRenewals(renewals, agreements[k].id))
    ensures forall j :: 0 <= j < |agreements| - 1 ==> RemoveAt(agreements, k)[j].id != agreements[k].id
  {
    var id := agreements[k].id;
    var after := RemoveAt(agreements, k);
    var kept := DropRenewals(renewals, id);
    forall i, j | 0 <= i < j < |after|
      ensures after[i].id != after[j].id
    {
      var i' := if i < k then i else i + 1;
      var j' := if j < k then j else j + 1;
      assert after[i] == agreements[i'] && after[j] == agreements[j'];
    }
    forall i | 0 <= i < |after|
      ensures after[i].id != id
    {
      var i' := if i < k then i else i + 1;
      assert after[i] == agreements[i'];
      if i' < k {
        assert agreements[i'].id != agreements[k].id;
      } else {
        assert agreements[k].id != agreements[i'].id;
      }
    }
    forall i | 0 <= i < |after|
      ensures after[i].renewalCount == RenewalCount(kept, after[i].id)
    {
      var i' := if i < k then i else i + 1;
      assert after[i] == agreements[i'];
      DropRenewalsCount(renewals, id, after[i].id);
    }
    forall i | 0 <= i < |kept|
      ensures Find(after, kept[i].agreementId).Some?
    {
      var x := kept[i].agreementId;
      assert kept[i] in renewals;
      var n :| 0 <= n < |renewals| && renewals[n] == kept[i];
      var j := Find(agreements, x).value;
      assert j != k;
      var j' := if j < k then j else j - 1;
      assert after[j'].id == x;
    }
  }

  /** The file move of remove_agreement, from the folders files and
      removedNames to files' and removedNames': a missing file moves nothing;
      a file that exists leaves the uploads folder for the removed folder
      under the first free candidate name, the counter-th one, its own name
      exactly when that is free. */
  ghost predicate MovedToFirstFree(path: string, files: set<string>, removedNames: set<string>,
                                   files': set<string>, removedNames': set<string>, movedTo: Option<string>, counter: nat)
  {
    && (path !in files ==> movedTo.None? && counter == 0 && files' == files && removedNames' == removedNames)
    && (path in files ==>
          && movedTo.Some? && movedTo.value !in removedNames
          && files' == files - {path} && removedNames' == removedNames + {movedTo.value}
          && (movedTo.value == Basename(path) <==> Basename(path) !in removedNames)
          && counter >= 1 && movedTo.value == Probe(Basename(path), counter - 1)
          && (forall j :: 0 <= j < counter - 1 ==> Probe(Basename(path), j) in removedNames))
  }

  /** The file move of remove_agreement; counter is the number of candidate
      names tried (0 when nothing moves). */
  method MoveToRemoved(path: string, files: set<string>, removedNames: set<string>)
    returns (files': set<string>, removedNames': set<string>, movedTo: Option<string>, counter: nat)
    ensures MovedToFirstFree(path, files, removedNames, files', removedNames', movedTo, counter)
  {
    files', removedNames', movedTo, counter := files, removedNames, None, 0;
    if path in files {
      var name;
      name, counter := FreeName(Basename(path), removedNames);
      files' := files - {path};
      removedNames' := removedNames + {name};
      movedTo := Some(name);
    }
  }

  /** The rows of the reminder email's table, one per expiring agreement, in order. */
  method MailLines(expiring: seq<Agreement>, today: int) returns (lines: seq<MailLine>)
    ensures |lines| == |expiring|
    ensures forall j :: 0 <= j < |expiring| ==> lines[j] == MailLineOf(WithDays(expiring[j], expiring[j].endDate - today))
  {
    lines := [];
    for i := 0 to |expiring|
      invariant |lines| == i
      invariant forall j :: 0 <= j < i ==> lines[j] == MailLineOf(WithDays(expiring[j], expiring[j].endDate - today))
    {
      var item := WithDays(expiring[i], expiring[i].endDate - today);
      lines := lines + [MailLineOf(item)];
    }
  }

  class ReminderStore {
    var agreements: seq<Agreement>
    var renewals: seq<Renewal>
    /** The files of the uploads folder, by path. */
    var files: set<string>
    /** The names present in the removed_agreements folder. */
    var removedNames: set<string>

    ghost predicate Valid()
      reads this`agreements, this`renewals
    {
      Consistent(agreements, renewals)
    }

    constructor ()
      ensures agreements == [] && renewals == [] && files == {} && removedNames == {} && Valid()
    {
      agreements := [];
      renewals := [];
      files := {};
      removedNames := {};
    }

    /** all_agreements: the user's agreements in table order, each with its
        days left. */
    method AllAgreements(user: nat, today: int) returns (listing: seq<WithDays>)
      ensures |listing| == |Mine(agreements, user)|
      ensures forall i :: 0 <= i < |listing| ==>
                listing[i].agreement == Mine(agreements, user)[i] && listing[i].daysLeft == DaysLeft(listing[i].agreement, today)
      ensures forall w :: w in listing ==> w.agreement.userId == user && w.daysLeft >= 0
    {
      var mine := Mine(agreements, user);
      listing := [];
      for i := 0 to |mine|
        invariant |listing| == i
        invariant forall j :: 0 <= j < i ==> listing[j] == WithDays(mine[j], DaysLeft(mine[j], today))
      {
        var a := mine[i];
        var daysLeft := if a.endDate >= today then a.endDate - today else 0;
        listing := listing + [WithDays(a, daysLeft)];
      }
      forall w | w in listing
        ensures w.agreement.userId == user
      {
        var j :| 0 <= j < |listing| && listing[j] == w;
        assert mine[j] in mine;
      }
    }

    /** expiring_agreements: the user's agreements whose end date lies in the
        next 60 days, in table order, with their days left (0..60), and their
        number. */
    method ExpiringAgreements(user: nat, today: int) returns (listing: seq<WithDays>, expiringCount: nat)
      ensures expiringCount == |listing| == |Expiring(Mine(agreements, user), today)|
      ensures forall i :: 0 <= i < |listing| ==>
                listing[i].agreement == Expiring(Mine(agreements, user), today)[i]
                && listing[i].daysLeft == listing[i].agreement.endDate - today
      ensures forall w :: w in listing ==> ExpiresSoon(w.agreement, today) && 0 <= w.daysLeft <= 60
    {
      var expiring := Expiring(Mine(agreements, user), today);
      listing := [];
      for i := 0 to |expiring|
        invariant |listing| == i
        invariant forall j :: 0 <= j < i ==> listing[j] == WithDays(expiring[j], expiring[j].endDate - today)
      {
        var a := expiring[i];
        listing := listing + [WithDays(a, a.endDate - today)];
      }
      expiringCount := |expiring|;
      ExpiringMembers(Mine(agreements, user), today);
      forall w | w in listing
        ensures ExpiresSoon(w.agreement, today)
      {
        var j :| 0 <= j < |listing| && listing[j] == w;
        assert expiring[j] in expiring;
      }
    }

    /** dashboard: the number of the user's agreements in the 60-day window,
        the same number the expiring page shows. */
    method Dashboard(user: nat, today: int) returns (expiringSoon: nat)
      ensures expiringSoon == |Expiring(Mine(agreements, user), today)|
    {
      expiringSoon := ExpiringSoon(Mine(agreements, user), today);
      ExpiringSoonCount(Mine(agreements, user), today);
    }

    /** send_expiry_emails: nothing is sent when no agreement of the user
        expires in the next 60 days; otherwise one email holds a line for
        each of them, in table order. */
    method SendExpiryEmails(user: nat, today: int) returns (mail: Option<seq<MailLine>>)
      ensures mail.None? <==> Expiring(Mine(agreements, user), today) == []
      ensures mail.Some? ==>
                |mail.value| == |Expiring(Mine(agreements, user), today)|
                && forall i :: 0 <= i < |mail.value| ==>
                     var a := Expiring(Mine(agreements, user), today)[i];
                     mail.value[i] == MailLineOf(WithDays(a, a.endDate - today))
    {
      var expiring := Expiring(Mine(agreements, user), today);
      if expiring == [] {
        return None;
      }
      var lines := MailLines(expiring, today);
      mail := Some(lines);
    }

    /** upload (POST): all of company, person, both dates and the file must be
        given, the file type allowed and both dates valid; then the file is
        saved at savedPath and a row with no renewals is added. */
    method Upload(user: nat, f: UploadForm, savedPath: string) returns (r: UploadOutcome)
      requires Valid()
      modifies this
      ensures Valid()
      ensures renewals == old(renewals) && removedNames == old(removedNames)
      ensures !AllGiven(f) ==> r == MissingFields
      ensures AllGiven(f) && !AllowedUpload(f.filename.value) ==> r == InvalidFileType
      ensures AllGiven(f) && AllowedUpload(f.filename.value) && (f.startDay.None? || f.endDay.None?) ==> r == UploadInvalidDate
      ensures AllGiven(f) && AllowedUpload(f.filename.value) && f.startDay.Some? && f.endDay.Some? ==> r.Uploaded?
      ensures !r.Uploaded? ==> agreements == old(agreements) && files == old(files)
      ensures r.Uploaded? ==>
                && AllGiven(f) && AllowedUpload(f.filename.value) && f.startDay.Some? && f.endDay.Some?
                && r.id == NewId(old(agreements))
                && agreements == old(agreements) + [Agreement(r.id, user, f.company.value, f.person.value, f.email,
                                                              f.startDay.value, f.endDay.value, savedPath, 0)]
                && files == old(files) + {savedPath}
    {
      if !AllGiven(f) {
        return MissingFields;
      }
      if !AllowedUpload(f.filename.value) {
        return InvalidFileType;
      }
      if f.startDay.None? || f.endDay.None? {
        return UploadInvalidDate;
      }
      files := files + {savedPath};
      var a := Agreement(NewId(agreements), user, f.company.value, f.person.value, f.email,
                         f.startDay.value, f.endDay.value, savedPath, 0);
      ConsistentUpload(agreements, renewals, a);
      agreements := agreements + [a];
      r := Uploaded(a.id);
    }

    /** renew (POST): an unknown id or another user's agreement changes
        nothing, nor do dates that do not parse; otherwise a renewal record
        keeps the old dates and the renewal day, the new dates replace them,
        an empty email becomes None and renewal_count goes up by one. */
    method Renew(user: nat, id: nat, renewedDay: Option<int>, newStart: Option<int>, newEnd: Option<int>,
                 email: Option<string>) returns (r: RenewOutcome)
      requires Valid()
      modifies this
      ensures Valid()
      ensures files == old(files) && removedNames == old(removedNames)
      ensures Authorize(old(agreements), id, user) == NotFound ==> r == RenewNotFound
      ensures Authorize(old(agreements), id, user) == Unauthorized ==> r == RenewUnauthorized
      ensures Authorize(old(agreements), id, user).Owned? && (renewedDay.None? || newStart.None? || newEnd.None?) ==>
                r == RenewInvalidDate
      ensures Authorize(old(agreements), id, user).Owned? && renewedDay.Some? && newStart.Some? && newEnd.Some? ==>
                r == Renewed
      ensures r != Renewed ==> agreements == old(agreements) && renewals == old(renewals)
      ensures r == Renewed ==>
                && Authorize(old(agreements), id, user).Owned? && renewedDay.Some? && newStart.Some? && newEnd.Some?
                && var k := Authorize(old(agreements), id, user).index;
                   var a := old(agreements)[k];
                   && renewals == old(renewals) + [Renewal(id, a.startDate, a.endDate, renewedDay.value)]
                   && agreements == old(agreements)[k := a.(startDate := newStart.value, endDate := newEnd.value,
                                                           email := if Truthy(email) then email else None,
                                                           renewalCount := a.renewalCount + 1)]
    {
      var access := Authorize(agreements, id, user);
      if access == NotFound {
        return RenewNotFound;
      }
      if access == Unauthorized {
        return RenewUnauthorized;
      }
      if renewedDay.None? || newStart.None? || newEnd.None? {
        return RenewInvalidDate;
      }
      var k := access.index;
      var a := agreements[k];
      var renewal := Renewal(a.id, a.startDate, a.endDate, renewedDay.value);
      var updated := a.(startDate := newStart.value, endDate := newEnd.value,
                        email := if Truthy(email) then email else None,
                        renewalCount := a.renewalCount + 1);
      ConsistentRenew(agreements, renewals, k, renewal, updated);
      renewals := renewals + [renewal];
      agreements := agreements[k := updated];
      r := Renewed;
    }

    /** remove_agreement: an unknown id or another user's agreement changes
        nothing; otherwise its file, when it exists, moves to the removed
        folder under the first free name, and the agreement and its renewal
        records are deleted; counter is the number of candidate names tried. */
    method RemoveAgreement(user: nat, id: nat) returns (r: RemoveOutcome, counter: nat)
      requires Valid()
      modifies this
      ensures Valid()
      ensures Authorize(old(agreements), id, user) == NotFound ==> r == RemoveNotFound
      ensures Authorize(old(agreements), id, user) == Unauthorized ==> r == RemoveUnauthorized
      ensures Authorize(old(agreements), id, user).Owned? ==> r.Removed?
      ensures !r.Removed? ==> agreements == old(agreements) && renewals == old(renewals)
                              && files == old(files) && removedNames == old(removedNames)
      ensures r.Removed? ==>
                && Authorize(old(agreements), id, user).Owned?
                && var k := Authorize(old(agreements), id, user).index;
                   var path := old(agreements)[k].filePath;
                   && agreements == RemoveAt(old(agreements), k)
                   && renewals == DropRenewals(old(renewals), id)
                   && MovedToFirstFree(path, old(files), old(removedNames), files, removedNames, r.movedTo, counter)
    {
      counter := 0;
      var access := Authorize(agreements, id, user);
      if access == NotFound {
        return RemoveNotFound, counter;
      }
      if access == Unauthorized {
        return RemoveUnauthorized, counter;
      }
      var movedTo;
      movedTo, counter := RemoveOwned(access.index);
      r := Removed(movedTo);
    }

    /** The deletion remove_agreement makes once the agreement at k is known to
        be the user's: the file moves, the row and its renewals go. */
    method RemoveOwned(k: nat) returns (movedTo: Option<string>, counter: nat)
      requires Valid() && k < |agreements|
      modifies this
      ensures Valid()
      ensures agreements == RemoveAt(old(agreements), k)
      ensures renewals == DropRenewals(old(renewals), old(agreements)[k].id)
      ensures MovedToFirstFree(old(agreements)[k].filePath, old(files), old(removedNames), files, removedNames,
                               movedTo, counter)
    {
      ghost var agreements0, renewals0 := agreements, renewals;
      movedTo, counter := MoveFile(agreements[k].filePath);
      assert agreements == agreements0 && renewals == renewals0;
      ghost var files1, removedNames1 := files, removedNames;
      DeleteRow(k);
      assert files == files1 && removedNames == removedNames1;
    }

    /** The shutil.move of the agreement's file, on the two folders. */
    method MoveFile(path: string) returns (movedTo: Option<string>, counter: nat)
      modifies this`files, this`removedNames
      ensures MovedToFirstFree(path, old(files), old(removedNames), files, removedNames, movedTo, counter)
    {
      var files', removedNames';
      files', removedNames', movedTo, counter := MoveToRemoved(path, files, removedNames);
      files, removedNames := files', removedNames';
    }

    /** The two DELETE statements: the row at k and its renewal records go. */
    method DeleteRow(k: nat)
      requires Valid() && k < |agreements|
      modifies this`agreements, this`renewals
      ensures Valid()
      ensures agreements == RemoveAt(old(agreements), k)
      ensures renewals == DropRenewals(old(renewals), old(agreements)[k].id)
    {
      ConsistentRemove(agreements, renewals, k);
      agreements, renewals := RemoveAt(agreements, k), DropRenewals(renewals, agreements[k].id);
    }

    /** download: an unknown id or another user's agreement sends nothing;
        otherwise the file is sent, by its directory and base name. */
    method Download(user: nat, id: nat) returns (r: DownloadOutcome)
      ensures r == DownloadNotFound <==> Authorize(agreements, id, user) == NotFound
      ensures r == DownloadUnauthorized <==> Authorize(agreements, id, user) == Unauthorized
      ensures r.SendFile? ==>
                Authorize(agreements, id, user).Owned?
                && var path := agreements[Authorize(agreements, id, user).index].filePath;
                   r.name == Basename(path) && r.directoryPath + r.name == path
    {
      var access := Authorize(agreements, id, user);
      if access == NotFound {
        return DownloadNotFound;
      }
      if access == Unauthorized {
        return DownloadUnauthorized;
      }
      var path := agreements[access.index].filePath;
      var name := Basename(path);
      r := SendFile(path[..|path| - |name|], name);
    }
  }
}
