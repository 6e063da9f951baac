/**
 * The part of highlight_uans_by_site both application variants share: the
 * identifier column cleaned of a trailing ".0" and surrounding whitespace, the
 * distinct sites in order of first appearance, one number_dict per site, the
 * per-site annotation pass, the output file name from the sanitised site name,
 * and the job_progress write after every site that is not skipped.
 *
 * The spreadsheet is what read_excel gives, as rows of cells: a cell is the
 * text str() gives for its value, or blank (pandas' NaN).
 */
module Pipeline {
  import opened Wrappers
  import opened Text
  import opened Annotator
  import Jobs

  datatype Cell = Value(text: string) | Blank

  /** A read workbook: its column names and its rows, each a map from column name to cell. */
  datatype Sheet = Sheet(columns: seq<string>, rows: seq<map<string, Cell>>)

  /** One row after cleaning: the cleaned identifier text and the site value,
      None for a blank site. */
  datatype Record = Record(number: string, site: Option<string>)

  function CellAt(row: map<string, Cell>, column: string): Cell {
    if column in row then row[column] else Blank
  }

  /** astype(str): a blank cell becomes the text "nan". */
  function TextOf(c: Cell): string {
    match c
    case Value(t) => t
    case Blank => "nan"
  }

  predicate EndsWith(s: string, suffix: string) {
    |suffix| <= |s| && s[|s| - |suffix|..] == suffix
  }

  /** str.replace(r'\.0$', '', regex=True): removes a ".0" that ends the text or
      stands just before a final newline (where '$' also matches). At most one
      such ".0" exists. */
  function DropDotZero(s: string): (r: string)
    ensures EndsWith(s, ".0") ==> s == r + ".0"
    ensures !EndsWith(s, ".0") && EndsWith(s, ".0\n") ==> |r| >= 1 && s == r[..|r| - 1] + ".0\n" && r[|r| - 1] == '\n'
    ensures !EndsWith(s, ".0") && !EndsWith(s, ".0\n") ==> r == s
  {
    if EndsWith(s, ".0") then s[..|s| - 2]
    else if EndsWith(s, ".0\n") then s[..|s| - 3] + "\n"
    else s
  }

  /** The cleaning of the identifier column. */
  function CleanCell(c: Cell): string {
    Strip(DropDotZero(TextOf(c)))
  }

  /** A whole number that pandas read as a float, such as 101234567890.0, is
      cleaned back to its digits. */
  lemma CleanFloatText(n: nat)
    ensures CleanCell(Value(Decimal(n) + ".0")) == Decimal(n)
  {
    var s := Decimal(n) + ".0";
    assert s[|s| - 2..] == ".0";
    assert s[..|s| - 2] == Decimal(n);
    StripDigits(Decimal(n));
  }

  /** Only one ".0" is removed, and a blank cell is cleaned to "nan". */
  lemma CleanCellExamples()
    ensures CleanCell(Value("7.0.0")) == "7.0"
    ensures CleanCell(Blank) == "nan"
  {
    assert DropDotZero("7.0.0") == "7.0";
    StripUnpadded("7.0");
    StripUnpadded("nan");
  }

  /** The rows of the sheet after the identifier column (target) is cleaned in
      place. When the site column is that same column, the sites are the
      cleaned texts too. */
  function Records(sheet: Sheet, target: string, siteColumn: string): (rs: seq<Record>)
    ensures |rs| == |sheet.rows|
    ensures forall i :: 0 <= i < |rs| ==> rs[i].number == CleanCell(CellAt(sheet.rows[i], target))
  {
    seq(|sheet.rows|, i requires 0 <= i < |sheet.rows| =>
      var number := CleanCell(CellAt(sheet.rows[i], target));
      Record(number,
             if siteColumn == target then Some(number)
             else match CellAt(sheet.rows[i], siteColumn)
                  case Value(t) => Some(t)
                  case Blank => None))
  }

  // ---------------------------------------------------------------------------
  // number_dict

  /** The key one row contributes: none when the identifier strips to "" or to
      "nan"; otherwise the stripped text with every ' ' removed. */
  function DictKey(number: string): Option<string> {
    var u := Strip(number);
    if u == "" || u == "nan" then None else Some(RemoveChar(u, ' '))
  }

  predicate HasKey(dict: seq<Entry>, key: string) {
    exists i :: 0 <= i < |dict| && dict[i].number == key
  }

  /** number_dict[key] = "regular" on a dict kept as its entries in insertion
      order: an existing key keeps its place, a new one goes last. */
  function Put(dict: seq<Entry>, key: string): seq<Entry> {
    if HasKey(dict, key)
    then seq(|dict|, i requires 0 <= i < |dict| => if dict[i].number == key then Entry(key, "regular") else dict[i])
    else dict + [Entry(key, "regular")]
  }

  /** The number_dict of a site after the first rows have been read. */
  function DictOf(records: seq<Record>, site: string): seq<Entry> {
    if records == [] then []
    else
      var d := DictOf(records[..|records| - 1], site);
      var r := records[|records| - 1];
      if r.site == Some(site) && DictKey(r.number).Some? then Put(d, DictKey(r.number).value) else d
  }

  /** The row loop building number_dict for one site. */
  method BuildNumberDict(records: seq<Record>, site: string) returns (numberDict: seq<Entry>)
    ensures numberDict == DictOf(records, site)
  {
    numberDict := [];
    for i := 0 to |records|
      invariant numberDict == DictOf(records[..i], site)
    {
      assert records[..i + 1][..i] == records[..i];
      var r := records[i];
      if r.site != Some(site) {
        continue;
      }
      var number := Strip(r.number);
      if number == "" || number == "nan" {
        continue;
      }
      var cleanNumber := RemoveChar(number, ' ');
      numberDict := Put(numberDict, cleanNumber);
    }
    assert records[..|records|] == records;
  }

  predicate DistinctKeys(dict: seq<Entry>) {
    forall i, j :: 0 <= i < j < |dict| ==> dict[i].number != dict[j].number
  }

  predicate AllRegular(dict: seq<Entry>) {
    forall i :: 0 <= i < |dict| ==> dict[i].tag == "regular"
  }

  /** Row i of the records gives key to the dict of site. */
  predicate Contributes(records: seq<Record>, i: int, site: string, key: string) {
    0 <= i < |records| && records[i].site == Some(site) && DictKey(records[i].number) == Some(key)
  }

  lemma PutSpec(dict: seq<Entry>, key: string)
    requires DistinctKeys(dict) && AllRegular(dict)
    ensures DistinctKeys(Put(dict, key)) && AllRegular(Put(dict, key))
    ensures forall k :: HasKey(Put(dict, key), k) <==> HasKey(dict, k) || k == key
  {
    var p := Put(dict, key);
    if HasKey(dict, key) {
      assert forall i :: 0 <= i < |dict| ==> p[i].number == dict[i].number;
    } else {
      assert p[|dict|].number == key;
      assert forall i :: 0 <= i < |dict| ==> p[i] == dict[i];
    }
  }

  /** Reading one more row adds its key, when it contributes one, and nothing else. */
  lemma DictOfStep(records: seq<Record>, site: string, k: string)
    requires records != []
    requires DistinctKeys(DictOf(records[..|records| - 1], site)) && AllRegular(DictOf(records[..|records| - 1], site))
    ensures DistinctKeys(DictOf(records, site)) && AllRegular(DictOf(records, site))
    ensures HasKey(DictOf(records, site), k) <==>
              HasKey(DictOf(records[..|records| - 1], site), k) || Contributes(records, |records| - 1, site, k)
  {
    var r := records[|records| - 1];
    var d := DictOf(records[..|records| - 1], site);
    if r.site == Some(site) && DictKey(r.number).Some? {
      PutSpec(d, DictKey(r.number).value);
    }
  }

  /** A row before the last contributes the same in the table and in its prefix. */
  lemma ContributesInPrefix(records: seq<Record>, i: int, site: string, k: string)
    requires 0 <= i < |records| - 1
    ensures Contributes(records[..|records| - 1], i, site, k) <==> Contributes(records, i, site, k)
  {
    assert records[..|records| - 1][i] == records[i];
  }

  /** number_dict holds each identifier once and every value is "regular". */
  lemma {:induction false} DictOfWellFormed(records: seq<Record>, site: string)
    ensures DistinctKeys(DictOf(records, site)) && AllRegular(DictOf(records, site))
  {
    if records != [] {
      DictOfWellFormed(records[..|records| - 1], site);
      DictOfStep(records, site, "");
    }
  }

  /** A key is in number_dict exactly when some row of the site contributes it. */
  lemma DictOfHasKey(records: seq<Record>, site: string, k: string)
    ensures HasKey(DictOf(records, site), k) <==> exists i :: Contributes(records, i, site, k)
  {
    if HasKey(DictOf(records, site), k) {
      KeyHasContributor(records, site, k);
    }
    if exists i :: Contributes(records, i, site, k) {
      var i :| Contributes(records, i, site, k);
      ContributorGivesKey(records, site, k, i);
    }
  }

  /** Every key in number_dict comes from a row of the site. */
  lemma {:induction false} KeyHasContributor(records: seq<Record>, site: string, k: string)
    requires HasKey(DictOf(records, site), k)
    ensures exists i :: Contributes(records, i, site, k)
  {
    var last := |records| - 1;
    var pre := records[..last];
    if !Contributes(records, last, site, k) {
      DictOfWellFormed(pre, site);
      DictOfStep(records, site, k);
      KeyHasContributor(pre, site, k);
      var i :| Contributes(pre, i, site, k);
      ContributesInPrefix(records, i, site, k);
    }
  }

  /** Every row of the site with an identifier puts it in number_dict. */
  lemma {:induction false} ContributorGivesKey(records: seq<Record>, site: string, k: string, i: int)
    requires Contributes(records, i, site, k)
    ensures HasKey(DictOf(records, site), k)
    decreases |records|
  {
    var last := |records| - 1;
    var pre := records[..last];
    DictOfWellFormed(pre, site);
    DictOfStep(records, site, k);
    if i != last {
      ContributesInPrefix(records, i, site, k);
      ContributorGivesKey(pre, site, k, i);
    }
  }

  /** number_dict holds each identifier once, every value is "regular", and a
      key is in it exactly when some row of the site contributes it. */
  lemma DictOfSpec(records: seq<Record>, site: string)
    ensures DistinctKeys(DictOf(records, site)) && AllRegular(DictOf(records, site))
    ensures forall k :: HasKey(DictOf(records, site), k) <==> exists i :: Contributes(records, i, site, k)
  {
    DictOfWellFormed(records, site);
    forall k
      ensures HasKey(DictOf(records, site), k) <==> exists i :: Contributes(records, i, site, k)
    {
      DictOfHasKey(records, site, k);
    }
  }

  /** A site is skipped exactly when none of its rows contributes a key. */
  lemma DictEmptyIff(records: seq<Record>, site: string)
    ensures DictOf(records, site) == [] <==> forall i, k :: !Contributes(records, i, site, k)
  {
    DictOfSpec(records, site);
    var d := DictOf(records, site);
    if d != [] {
      assert HasKey(d, d[0].number);
    }
    forall i, k | Contributes(records, i, site, k)
      ensures d != []
    {
      assert HasKey(d, k);
    }
  }

  // ---------------------------------------------------------------------------
  // Sites

  /** df[site_column].dropna().unique(): the non-blank site values, each once,
      in order of first appearance. */
  function UniqueSites(records: seq<Record>): seq<string> {
    if records == [] then []
    else
      var u := UniqueSites(records[..|records| - 1]);
      var r := records[|records| - 1];
      if r.site.Some? && r.site.value !in u then u + [r.site.value] else u
  }

  /** Rows whose site cells are all blank list no site. */
  lemma {:induction false} NoSiteCells(records: seq<Record>)
    requires forall i :: 0 <= i < |records| ==> records[i].site.None?
    ensures UniqueSites(records) == []
  {
    if records != [] {
      NoSiteCells(records[..|records| - 1]);
    }
  }

  lemma {:induction false} UniqueSitesSpec(records: seq<Record>)
    ensures var u := UniqueSites(records);
            && (forall i, j :: 0 <= i < j < |u| ==> u[i] != u[j])
            && (forall s :: s in u <==> exists i :: 0 <= i < |records| && records[i].site == Some(s))
  {
    if records != [] {
      var pre := records[..|records| - 1];
      var last := records[|records| - 1];
      var u := UniqueSites(records);
      var u' := UniqueSites(pre);
      UniqueSitesSpec(pre);
      assert forall i :: 0 <= i < |pre| ==> pre[i] == records[i];
      assert forall i, j :: 0 <= i < j < |u| ==> u[i] != u[j] by {
        if last.site.Some? && last.site.value !in u' {
          forall i, j | 0 <= i < j < |u|
            ensures u[i] != u[j]
          {
            assert u[i] == u'[i];
            if j == |u'| {
              assert u'[i] in u';
            } else {
              assert u[j] == u'[j];
            }
          }
        }
      }
      forall s
        ensures s in u <==> exists i :: 0 <= i < |records| && records[i].site == Some(s)
      {
        assert s in u <==> s in u' || last.site == Some(s);
        if s in u' {
          var i :| 0 <= i < |pre| && pre[i].site == Some(s);
          assert records[i].site == Some(s);
        }
        if last.site == Some(s) {
          assert records[|records| - 1].site == Some(s);
        }
        if exists i :: 0 <= i < |records| && records[i].site == Some(s) {
          var i :| 0 <= i < |records| && records[i].site == Some(s);
          if i < |pre| {
            assert pre[i].site == Some(s);
          }
        }
      }
    }
  }

  /** The sites come in the order of their first appearance: a site listed
      before another occurs in an earlier row than any row of the other. */
  lemma {:induction false} UniqueSitesOrder(records: seq<Record>)
    ensures var u := UniqueSites(records);
            forall i, j, q :: 0 <= i < j < |u| && 0 <= q < |records| && records[q].site == Some(u[j]) ==>
              exists p :: 0 <= p < q && records[p].site == Some(u[i])
  {
    if records != [] {
      var pre := records[..|records| - 1];
      var u := UniqueSites(records);
      var u' := UniqueSites(pre);
      UniqueSitesOrder(pre);
      UniqueSitesSpec(pre);
      assert forall k :: 0 <= k < |pre| ==> pre[k] == records[k];
      forall i, j, q | 0 <= i < j < |u| && 0 <= q < |records| && records[q].site == Some(u[j])
        ensures exists p :: 0 <= p < q && records[p].site == Some(u[i])
      {
        assert u[i] == u'[i];
        if j < |u'| {
          assert u[j] == u'[j];
          var q' :| 0 <= q' < |pre| && pre[q'].site == Some(u'[j]);
          if q' < q {
            var p :| 0 <= p < q' && pre[p].site == Some(u'[i]);
            assert records[p] == pre[p];
          } else {
            var p :| 0 <= p < q && pre[p].site == Some(u'[i]);
            assert records[p] == pre[p];
          }
        } else {
          assert u'[i] in u';
          var p :| 0 <= p < |pre| && pre[p].site == Some(u'[i]);
          assert records[p] == pre[p];
        }
      }
    }
  }

  // ---------------------------------------------------------------------------
  // Progress

  /** int(k / total * 100), read as exact arithmetic. */
  function Percent(k: nat, total: nat): nat
    requires total > 0
  {
    k * 100 / total
  }

  lemma PercentBounds(k: nat, total: nat)
    requires 0 < total && k <= total
    ensures Percent(k, total) <= 100
    ensures Percent(total, total) == 100
  {
    assert k * 100 <= total * 100;
    assert total * 100 / total == 100;
  }

  lemma PercentMonotone(a: nat, b: nat, total: nat)
    requires 0 < total && a <= b
    ensures Percent(a, total) <= Percent(b, total)
  {
    var qa, qb := a * 100 / total, b * 100 / total;
    assert qa * total <= a * 100;
    assert b * 100 < (qb + 1) * total;
    MulLess(qa, qb + 1, total);
  }

  /** Any site before the last gives less than 100. */
  lemma PercentBelowFull(k: nat, total: nat)
    requires k < total
    ensures Percent(k, total) < 100
  {
    var q := k * 100 / total;
    assert q * total <= k * 100;
    assert k * 100 < 100 * total;
    MulLess(q, 100, total);
  }

  lemma MulMonotone(x: nat, y: nat, t: nat)
    requires x <= y
    ensures x * t <= y * t
  {
    var d := y - x;
    assert y * t == x * t + d * t;
  }

  lemma MulLess(x: nat, y: nat, t: nat)
    requires t > 0 && x * t < y * t
    ensures x < y
  {
    if y <= x {
      MulMonotone(y, x, t);
    }
  }

  // ---------------------------------------------------------------------------
  // The site loop

  /** What one run of the site loop works on: the cleaned rows, the document
      (its page count and its text search), the annotation style, the suffix
      put after the sanitised site name, and the boundary-page rule. */
  datatype Run = Run(records: seq<Record>, pageCount: nat, search: Search, style: Style,
                     suffix: string, keepLast: bool)

  /** os.path.join(output_dir, f"{safe_site_name}{suffix}.pdf"), within the output folder. */
  function SiteFile(site: string, suffix: string): string {
    SafeName(site) + suffix + ".pdf"
  }

  /** Site n - 1 (0-based) is processed rather than skipped. */
  predicate Processed(run: Run, sites: seq<string>, n: nat)
    requires 1 <= n <= |sites|
  {
    DictOf(run.records, sites[n - 1]) != []
  }

  /** The file the pass saves for a site: none for a skipped site. */
  function SiteOutput(run: Run, site: string): Option<SavedPdf> {
    var dict := DictOf(run.records, site);
    if dict == [] then None else SavedFor(run.pageCount, dict, run.search, run.style, run.keepLast)
  }

  /** A folder after files outs[i] (where present) were written under names[i],
      for i below n, in that order. */
  function WriteAll(names: seq<string>, outs: seq<Option<SavedPdf>>, n: nat): map<string, SavedPdf>
    requires n <= |names| && n <= |outs|
  {
    if n == 0 then map[]
    else
      var files := WriteAll(names, outs, n - 1);
      if outs[n - 1].Some? then files[names[n - 1] := outs[n - 1].value] else files
  }

  /** The output folder after the first n sites: each processed site whose pass
      saved a file writes it under its name, replacing an earlier one of that name. */
  function FilesAfter(run: Run, sites: seq<string>, n: nat): map<string, SavedPdf>
    requires n <= |sites|
  {
    WriteAll(Names(run, sites), Outputs(run, sites), n)
  }

  /** The output name of every site. */
  function Names(run: Run, sites: seq<string>): (r: seq<string>)
    ensures |r| == |sites| && forall i :: 0 <= i < |sites| ==> r[i] == SiteFile(sites[i], run.suffix)
  {
    seq(|sites|, i requires 0 <= i < |sites| => SiteFile(sites[i], run.suffix))
  }

  /** The file every site saves, if any. */
  function Outputs(run: Run, sites: seq<string>): (r: seq<Option<SavedPdf>>)
    ensures |r| == |sites| && forall i :: 0 <= i < |sites| ==> r[i] == SiteOutput(run, sites[i])
  {
    seq(|sites|, i requires 0 <= i < |sites| => SiteOutput(run, sites[i]))
  }

  /** The values written to job_progress over the first n sites: 0 before the
      loop, then int((idx + 1) / total * 100) after each processed site. */
  function Writes(run: Run, sites: seq<string>, n: nat): (w: seq<nat>)
    requires n <= |sites|
    ensures |w| >= 1 && w[0] == 0
  {
    if n == 0 then [0]
    else Writes(run, sites, n - 1) + (if Processed(run, sites, n) then [Percent(n, |sites|)] else [])
  }

  function Last(w: seq<nat>): nat
    requires |w| >= 1
  {
    w[|w| - 1]
  }

  /** One turn of the site loop up to the progress write: the site's number_dict,
      skipped when empty, otherwise the pass and the file it saves. */
  method ProcessSite(run: Run, site: string) returns (output: Option<SavedPdf>, processed: bool)
    ensures output == SiteOutput(run, site)
    ensures processed <==> DictOf(run.records, site) != []
  {
    var numberDict := BuildNumberDict(run.records, site);
    if numberDict == [] {
      return None, false;
    }
    var saved, _, _, _ := ProcessPdfForSite(run.pageCount, run.search, numberDict, run.style, run.keepLast);
    return saved, true;
  }

  /** One turn of the site loop, for the site at index idx: the folder gains
      the site's file, if any, and a processed site writes its progress. */
  method SiteTurn(registry: Jobs.JobRegistry, jobId: string, run: Run, sites: seq<string>, idx: nat,
                  files: map<string, SavedPdf>, ghost writes: seq<nat>)
    returns (filesAfter: map<string, SavedPdf>, ghost writesAfter: seq<nat>)
    requires idx < |sites|
    requires files == FilesAfter(run, sites, idx) && writes == Writes(run, sites, idx)
    modifies registry
    ensures filesAfter == FilesAfter(run, sites, idx + 1) && writesAfter == Writes(run, sites, idx + 1)
    ensures registry.progress == if Processed(run, sites, idx + 1) then old(registry.progress)[jobId := Last(writesAfter)]
                                 else old(registry.progress)
    ensures !Processed(run, sites, idx + 1) ==> writesAfter == writes
    ensures registry.status == old(registry.status)
  {
    var output, processed := ProcessSite(run, sites[idx]);
    filesAfter := files;
    if output.Some? {
      var outputPath := SiteFile(sites[idx], run.suffix);
      filesAfter := files[outputPath := output.value];
    }
    writesAfter := writes;
    if processed {
      var p := Percent(idx + 1, |sites|);
      registry.SetProgress(jobId, p);
      writesAfter := writes + [p];
    }
  }

  /** The site loop of highlight_uans_by_site. The job's progress ends at the
      last value written, and its status is 'completed'. */
  method RunSites(registry: Jobs.JobRegistry, jobId: string, run: Run)
    returns (files: map<string, SavedPdf>, ghost writes: seq<nat>)
    modifies registry
    ensures files == FilesAfter(run, UniqueSites(run.records), |UniqueSites(run.records)|)
    ensures writes == Writes(run, UniqueSites(run.records), |UniqueSites(run.records)|)
    ensures registry.progress == old(registry.progress)[jobId := Last(writes)]
    ensures registry.status == old(registry.status)[jobId := Jobs.Completed]
  {
    var sites := UniqueSites(run.records);
    registry.SetProgress(jobId, 0);
    files := map[];
    writes := [0];
    for idx := 0 to |sites|
      invariant files == FilesAfter(run, sites, idx)
      invariant writes == Writes(run, sites, idx)
      invariant registry.progress == old(registry.progress)[jobId := Last(writes)]
      invariant registry.status == old(registry.status)
    {
      files, writes := SiteTurn(registry, jobId, run, sites, idx, files, writes);
    }
    registry.SetStatus(jobId, Jobs.Completed);
  }

  // ---------------------------------------------------------------------------
  // Properties of the site loop

  /** Every progress value written lies in 0..100, none is smaller than an
      earlier one, and each is at most the value for the sites seen so far. */
  lemma {:induction false} WritesSpec(run: Run, sites: seq<string>, n: nat)
    requires n <= |sites|
    ensures forall i :: 0 <= i < |Writes(run, sites, n)| ==> Writes(run, sites, n)[i] <= 100
    ensures forall i, j :: 0 <= i < j < |Writes(run, sites, n)| ==> Writes(run, sites, n)[i] <= Writes(run, sites, n)[j]
    ensures n > 0 ==> forall i :: 0 <= i < |Writes(run, sites, n)| ==> Writes(run, sites, n)[i] <= Percent(n, |sites|)
  {
    if n > 0 {
      WritesSpec(run, sites, n - 1);
      var w0 := Writes(run, sites, n - 1);
      var w := Writes(run, sites, n);
      var p := Percent(n, |sites|);
      PercentBounds(n, |sites|);
      if n == 1 {
        assert w0 == [0];
      } else {
        PercentMonotone(n - 1, n, |sites|);
        assert forall i :: 0 <= i < |w0| ==> w0[i] <= Percent(n - 1, |sites|);
      }
      assert forall i :: 0 <= i < |w0| ==> w0[i] <= p;
      if Processed(run, sites, n) {
        assert w == w0 + [Percent(n, |sites|)];
        assert forall i :: 0 <= i < |w0| ==> w[i] == w0[i];
      } else {
        assert w == w0;
      }
    }
  }

  /** When the last site is processed, the job's final progress is 100. */
  lemma LastSiteFull(run: Run, sites: seq<string>)
    requires |sites| > 0 && Processed(run, sites, |sites|)
    ensures Last(Writes(run, sites, |sites|)) == 100
  {
    PercentBounds(|sites|, |sites|);
  }

  /** The final progress is 0 when every site was skipped. */
  lemma {:induction false} AllSkippedWritesZero(run: Run, sites: seq<string>, n: nat)
    requires n <= |sites|
    requires forall k :: 1 <= k <= n ==> !Processed(run, sites, k)
    ensures Last(Writes(run, sites, n)) == 0
  {
    if n > 0 {
      assert !Processed(run, sites, n);
      assert Writes(run, sites, n) == Writes(run, sites, n - 1);
      AllSkippedWritesZero(run, sites, n - 1);
    }
  }

  /** The final progress is the value for the last processed site k. */
  lemma {:induction false} LastWriteIsLastProcessed(run: Run, sites: seq<string>, n: nat, k: nat)
    requires 1 <= k <= n <= |sites| && Processed(run, sites, k)
    requires forall m :: k < m <= n ==> !Processed(run, sites, m)
    ensures Last(Writes(run, sites, n)) == Percent(k, |sites|)
  {
    if k < n {
      assert !Processed(run, sites, n);
      assert Writes(run, sites, n) == Writes(run, sites, n - 1);
      LastWriteIsLastProcessed(run, sites, n - 1, k);
    }
  }

  /** The folder holds a name exactly when some file was written under it. */
  lemma {:induction false} WriteAllNames(names: seq<string>, outs: seq<Option<SavedPdf>>, n: nat)
    requires n <= |names| && n <= |outs|
    ensures forall name :: name in WriteAll(names, outs, n)
                           <==> exists i :: 0 <= i < n && outs[i].Some? && names[i] == name
  {
    if n > 0 {
      WriteAllNames(names, outs, n - 1);
    }
  }

  /** A file is in the folder as written, unless a later file has the same name. */
  lemma {:induction false} WriteAllContents(names: seq<string>, outs: seq<Option<SavedPdf>>, n: nat, i: nat)
    requires i < n <= |names| && n <= |outs| && outs[i].Some?
    requires forall j :: i < j < n ==> names[j] != names[i]
    ensures names[i] in WriteAll(names, outs, n) && WriteAll(names, outs, n)[names[i]] == outs[i].value
  {
    if i < n - 1 {
      WriteAllContents(names, outs, n - 1, i);
    }
  }

  /** The output folder holds a name exactly when some processed site saved a
      file under it. */
  lemma FilesAfterNames(run: Run, sites: seq<string>)
    ensures forall name :: name in FilesAfter(run, sites, |sites|)
                           <==> exists j :: 0 <= j < |sites| && SiteOutput(run, sites[j]).Some?
                                            && SiteFile(sites[j], run.suffix) == name
  {
    var names := Names(run, sites);
    var outs := Outputs(run, sites);
    WriteAllNames(names, outs, |sites|);
    forall name | name in FilesAfter(run, sites, |sites|)
      ensures exists j :: 0 <= j < |sites| && SiteOutput(run, sites[j]).Some?
                          && SiteFile(sites[j], run.suffix) == name
    {
      var j :| 0 <= j < |sites| && outs[j].Some? && names[j] == name;
      assert SiteOutput(run, sites[j]).Some? && SiteFile(sites[j], run.suffix) == name;
    }
    forall j | 0 <= j < |sites| && SiteOutput(run, sites[j]).Some?
      ensures SiteFile(sites[j], run.suffix) in FilesAfter(run, sites, |sites|)
    {
      assert outs[j].Some? && names[j] == SiteFile(sites[j], run.suffix);
    }
  }

  /** A site's file is in the folder as its pass saved it unless a later site's
      sanitised name is the same. */
  lemma FilesAfterContents(run: Run, sites: seq<string>, i: nat)
    requires i < |sites| && SiteOutput(run, sites[i]).Some?
    requires forall j :: i < j < |sites| ==> SafeName(sites[j]) != SafeName(sites[i])
    ensures SiteFile(sites[i], run.suffix) in FilesAfter(run, sites, |sites|)
    ensures FilesAfter(run, sites, |sites|)[SiteFile(sites[i], run.suffix)] == SiteOutput(run, sites[i]).value
  {
    var names := Names(run, sites);
    var outs := Outputs(run, sites);
    forall j | i < j < |sites|
      ensures names[j] != names[i]
    {
      SiteFileInjective(sites[j], sites[i], run.suffix);
    }
    WriteAllContents(names, outs, |sites|, i);
  }

  /** Output names differ exactly when the sanitised site names differ. */
  lemma SiteFileInjective(a: string, b: string, suffix: string)
    ensures SiteFile(a, suffix) == SiteFile(b, suffix) <==> SafeName(a) == SafeName(b)
  {
    if SiteFile(a, suffix) == SiteFile(b, suffix) {
      assert |SafeName(a)| == |SafeName(b)|;
      assert SafeName(a) == SiteFile(a, suffix)[..|SafeName(a)|];
      assert SafeName(b) == SiteFile(b, suffix)[..|SafeName(b)|];
    }
  }

  // ---------------------------------------------------------------------------
  // parse_color

  const Red := Rgba(1.0, 0.0, 0.0, 1.0)

  /** The colour name, lower-cased, looked up among six names; red otherwise. */
  function ParseColor(name: string): (c: Rgba)
    ensures 0.0 <= c.r <= 1.0 && 0.0 <= c.g <= 1.0 && 0.0 <= c.b <= 1.0 && c.a == 1.0
  {
    var n := Lower(name);
    if n == "red" then Red
    else if n == "blue" then Rgba(0.0, 0.0, 1.0, 1.0)
    else if n == "green" then Rgba(0.0, 0.5, 0.0, 1.0)
    else if n == "black" then Rgba(0.0, 0.0, 0.0, 1.0)
    else if n == "orange" then Rgba(1.0, 0.5, 0.0, 1.0)
    else if n == "yellow" then Rgba(1.0, 0.9, 0.0, 1.0)
    else Red
  }

  const ColorNames: set<string> := {"red", "blue", "green", "black", "orange", "yellow"}

  /** The letter case of the name does not matter, and an unknown name gives red. */
  lemma ParseColorSpec(name: string)
    ensures ParseColor(name) == ParseColor(Lower(name))
    ensures Lower(name) !in ColorNames ==> ParseColor(name) == Red
  {
    LowerIdempotent(name);
  }

  /** The style the /process route hands the pass: the default margins,
      special colour and border width, with the chosen colour, mode and opacity. */
  function JobStyle(color: string, mode: string, opacity: real): (s: Style)
    ensures s.margins == DefaultStyle.margins && s.specialColor == DefaultStyle.specialColor
    ensures s.borderWidth == DefaultStyle.borderWidth
    ensures s.borderColor == ParseColor(color) && s.mode == mode && s.opacity == opacity
  {
    DefaultStyle.(borderColor := ParseColor(color), mode := mode, opacity := opacity)
  }
}
