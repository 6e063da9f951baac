/**
 * highlight_uans_by_site of fortune_automation_tools, which handles two kinds of
 * identifier: a UAN (highlight_type 'uan', 12 digits, taken from the UAN
 * column) and an ESIC number (any other highlight_type, 10 digits, from the
 * ESIC column). Rows are validated before grouping, output files are named
 * "{site}_{highlight_type}.pdf", and the last page of the document is kept
 * only for UANs. Also the checks of the /process route that starts it.
 */
module FortuneTools {
  import opened Wrappers
  import opened Text
  import opened Annotator
  import opened Pipeline
  import Jobs

  /** The length a valid identifier has: 12 for a UAN, 10 otherwise. */
  function ExpectedLength(highlightType: string): nat {
    if highlightType == "uan" then 12 else 10
  }

  /** The column holding the identifiers. */
  function TargetColumn(highlightType: string, uanColumn: string, esicColumn: string): string {
    if highlightType == "uan" then uanColumn else esicColumn
  }

  /** The row filter on a cleaned identifier: not "0", not "nan", matched by
      ^\d+$ (one or more digits), and of the expected length. */
  predicate Keep(v: string, expected: nat) {
    v != "0" && v != "nan" && |v| > 0 && AllDigits(v) && |v| == expected
  }

  /** The filter keeps exactly the identifiers made of digits only and of the
      expected length: "0" and "nan" are not both digits and of length 10 or 12. */
  lemma KeepIff(v: string, highlightType: string)
    ensures Keep(v, ExpectedLength(highlightType)) <==> AllDigits(v) && |v| == ExpectedLength(highlightType)
  {
    if v == "nan" {
      assert !IsDigit(v[0]);
    }
  }

  /** The rows that pass the filter, in their original order. */
  function Survivors(records: seq<Record>, expected: nat): (r: seq<Record>)
    ensures forall i :: 0 <= i < |r| ==> Keep(r[i].number, expected)
    ensures forall x :: x in r <==> x in records && Keep(x.number, expected)
  {
    if records == [] then []
    else (if Keep(records[0].number, expected) then [records[0]] else []) + Survivors(records[1..], expected)
  }

  /** The filter works row by row: a row survives alone exactly when it
      passes, and filtering two runs of rows one after the other is filtering
      each and joining the results, so the survivors keep their order and
      their repetitions. */
  lemma {:induction false} SurvivorsAppend(a: seq<Record>, b: seq<Record>, expected: nat)
    ensures forall x :: Survivors([x], expected) == if Keep(x.number, expected) then [x] else []
    ensures Survivors(a + b, expected) == Survivors(a, expected) + Survivors(b, expected)
  {
    forall x: Record
      ensures Survivors([x], expected) == if Keep(x.number, expected) then [x] else []
    {
      assert [x][1..] == [];
    }
    if a == [] {
      assert a + b == b;
    } else {
      var x := if Keep(a[0].number, expected) then [a[0]] else [];
      assert (a + b)[1..] == a[1..] + b;
      assert Survivors(a + b, expected) == x + Survivors(a[1..] + b, expected);
      SurvivorsAppend(a[1..], b, expected);
      AppendAssoc(x, Survivors(a[1..], expected), Survivors(b, expected));
    }
  }

  datatype LoadError = UnreadableWorkbook | MissingColumn(column: string) | NoValidRows

  /** What highlight_uans_by_site does before its site loop: read the workbook
      (None when read_excel raises), check the target column and then the site
      column, clean the target column and filter the rows; no surviving row is
      an error too. */
  function Load(sheet: Option<Sheet>, highlightType: string, uanColumn: string, esicColumn: string,
                siteColumn: string): (r: Result<seq<Record>, LoadError>)
    ensures r.Success? ==> sheet.Some? && TargetColumn(highlightType, uanColumn, esicColumn) in sheet.value.columns
                           && siteColumn in sheet.value.columns
    ensures r.Success? ==> r.value != [] && forall i :: 0 <= i < |r.value| ==> Keep(r.value[i].number, ExpectedLength(highlightType))
    ensures sheet.None? ==> r == Failure(UnreadableWorkbook)
    ensures sheet.Some? && TargetColumn(highlightType, uanColumn, esicColumn) !in sheet.value.columns
            ==> r == Failure(MissingColumn(TargetColumn(highlightType, uanColumn, esicColumn)))
    ensures sheet.Some? && TargetColumn(highlightType, uanColumn, esicColumn) in sheet.value.columns
            && siteColumn !in sheet.value.columns
            ==> r == Failure(MissingColumn(siteColumn))
    ensures sheet.Some? && TargetColumn(highlightType, uanColumn, esicColumn) in sheet.value.columns
            && siteColumn in sheet.value.columns ==>
              var rows := Survivors(Records(sheet.value, TargetColumn(highlightType, uanColumn, esicColumn), siteColumn),
                                    ExpectedLength(highlightType));
              r == if rows == [] then Failure(NoValidRows) else Success(rows)
  {
    if sheet.None? then Failure(UnreadableWorkbook)
    else
      var target := TargetColumn(highlightType, uanColumn, esicColumn);
      if target !in sheet.value.columns then Failure(MissingColumn(target))
      else if siteColumn !in sheet.value.columns then Failure(MissingColumn(siteColumn))
      else
        var rows := Survivors(Records(sheet.value, target, siteColumn), ExpectedLength(highlightType));
        if rows == [] then Failure(NoValidRows) else Success(rows)
  }

  /** The site loop's parameters for this variant. */
  function FortuneRun(records: seq<Record>, highlightType: string, pageCount: nat, search: Search, style: Style): Run {
    Run(records, pageCount, search, style, "_" + highlightType, highlightType == "uan")
  }

  /** highlight_uans_by_site. A load error sets the job's status to 'error',
      leaves its progress alone and writes no file; otherwise every site is
      processed as the site loop does and the status ends 'completed'. */
  method HighlightUansBySite(registry: Jobs.JobRegistry, jobId: string, sheet: Option<Sheet>,
                             highlightType: string, uanColumn: string, esicColumn: string, siteColumn: string,
                             pageCount: nat, search: Search, style: Style)
    returns (ok: bool, files: map<string, SavedPdf>)
    modifies registry
    ensures var load := Load(sheet, highlightType, uanColumn, esicColumn, siteColumn);
            ok <==> load.Success?
    ensures var load := Load(sheet, highlightType, uanColumn, esicColumn, siteColumn);
            load.Failure? ==> files == map[] && registry.progress == old(registry.progress)
                              && registry.status == old(registry.status)[jobId := Jobs.Error]
    ensures var load := Load(sheet, highlightType, uanColumn, esicColumn, siteColumn);
            load.Success? ==>
              var run := FortuneRun(load.value, highlightType, pageCount, search, style);
              var sites := UniqueSites(load.value);
              && files == FilesAfter(run, sites, |sites|)
              && registry.progress == old(registry.progress)[jobId := Last(Writes(run, sites, |sites|))]
              && registry.status == old(registry.status)[jobId := Jobs.Completed]
  {
    var load := Load(sheet, highlightType, uanColumn, esicColumn, siteColumn);
    if load.Failure? {
      registry.SetStatus(jobId, Jobs.Error);
      return false, map[];
    }
    var run := FortuneRun(load.value, highlightType, pageCount, search, style);
    ghost var writes;
    files, writes := RunSites(registry, jobId, run);
    ok := true;
  }

  /** Every surviving row contributes its identifier unchanged: it is all digits,
      so stripping and removing spaces leave it as it is. */
  lemma SurvivorKey(v: string, expected: nat)
    requires Keep(v, expected)
    ensures DictKey(v) == Some(v)
  {
    StripDigits(v);
    RemoveAbsentChar(v, ' ');
  }

  /** A site's number_dict holds exactly the identifiers of its surviving rows. */
  lemma DictIsSiteIdentifiers(records: seq<Record>, expected: nat, site: string, k: string)
    requires forall i :: 0 <= i < |records| ==> Keep(records[i].number, expected)
    ensures HasKey(DictOf(records, site), k) <==> exists i :: 0 <= i < |records| && records[i].site == Some(site) && records[i].number == k
  {
    DictOfSpec(records, site);
    forall i | 0 <= i < |records|
      ensures DictKey(records[i].number) == Some(records[i].number)
    {
      SurvivorKey(records[i].number, expected);
    }
    if exists i :: 0 <= i < |records| && records[i].site == Some(site) && records[i].number == k {
      var i :| 0 <= i < |records| && records[i].site == Some(site) && records[i].number == k;
      assert Contributes(records, i, site, k);
    }
  }

  /** After validation no site is skipped, so a job with at least one site ends
      with progress 100. */
  lemma EverySiteProcessed(sheet: Option<Sheet>, highlightType: string, uanColumn: string, esicColumn: string,
                           siteColumn: string, pageCount: nat, search: Search, style: Style)
    requires Load(sheet, highlightType, uanColumn, esicColumn, siteColumn).Success?
    ensures var records := Load(sheet, highlightType, uanColumn, esicColumn, siteColumn).value;
            var run := FortuneRun(records, highlightType, pageCount, search, style);
            var sites := UniqueSites(records);
            && (forall k :: 1 <= k <= |sites| ==> Processed(run, sites, k))
            && (|sites| > 0 ==> Last(Writes(run, sites, |sites|)) == 100)
            && (|sites| == 0 ==> Last(Writes(run, sites, |sites|)) == 0 && FilesAfter(run, sites, |sites|) == map[])
  {
    var records := Load(sheet, highlightType, uanColumn, esicColumn, siteColumn).value;
    var run := FortuneRun(records, highlightType, pageCount, search, style);
    var sites := UniqueSites(records);
    var expected := ExpectedLength(highlightType);
    UniqueSitesSpec(records);
    forall k | 1 <= k <= |sites|
      ensures Processed(run, sites, k)
    {
      var s := sites[k - 1];
      assert s in sites;
      var i :| 0 <= i < |records| && records[i].site == Some(s);
      SurvivorKey(records[i].number, expected);
      assert Contributes(records, i, s, records[i].number);
      DictEmptyIff(records, s);
    }
    if |sites| > 0 {
      LastSiteFull(run, sites);
    }
  }

  /** When no surviving row names a site, dropna().unique() lists no site: the
      job completes with the initial progress 0 and writes no file. */
  lemma SitelessCompletesAtZero(sheet: Option<Sheet>, highlightType: string, uanColumn: string, esicColumn: string,
                                siteColumn: string, pageCount: nat, search: Search, style: Style)
    requires Load(sheet, highlightType, uanColumn, esicColumn, siteColumn).Success?
    requires var records := Load(sheet, highlightType, uanColumn, esicColumn, siteColumn).value;
             forall i :: 0 <= i < |records| ==> records[i].site.None?
    ensures var records := Load(sheet, highlightType, uanColumn, esicColumn, siteColumn).value;
            var run := FortuneRun(records, highlightType, pageCount, search, style);
            && UniqueSites(records) == []
            && Last(Writes(run, UniqueSites(records), 0)) == 0
            && FilesAfter(run, UniqueSites(records), 0) == map[]
  {
    var records := Load(sheet, highlightType, uanColumn, esicColumn, siteColumn).value;
    NoSiteCells(records);
  }

  // ---------------------------------------------------------------------------
  // The /process route

  /** The form names a site column, and the column of the chosen identifier
      kind when that kind is 'uan' or 'esic'. Absent fields are empty strings. */
  predicate ColumnsSelected(highlightType: string, uanColumn: string, esicColumn: string, siteColumn: string) {
    siteColumn != "" && !(highlightType == "uan" && uanColumn == "") && !(highlightType == "esic" && esicColumn == "")
  }

  datatype ProcessReply = FilesNotFound | ColumnsNotSelected | Processing

  /** process_files: filesFound says whether the job folder holds both an .xlsx
      and a .pdf. A failed check sets the job's status to 'error' and starts
      nothing. Otherwise the highlighting runs (here to completion, where the
      route starts it on a thread) with the parsed colour, the chosen mode and
      opacity, and the default margins, special colour and border width. */
  method ProcessFiles(registry: Jobs.JobRegistry, jobId: string, filesFound: bool,
                      highlightType: string, uanColumn: string, esicColumn: string, siteColumn: string,
                      mode: string, color: string, opacity: real,
                      sheet: Option<Sheet>, pageCount: nat, search: Search)
    returns (reply: ProcessReply, files: map<string, SavedPdf>)
    modifies registry
    ensures reply == if !filesFound then FilesNotFound
                     else if !ColumnsSelected(highlightType, uanColumn, esicColumn, siteColumn) then ColumnsNotSelected
                     else Processing
    ensures reply != Processing ==> files == map[] && registry.progress == old(registry.progress)
                                    && registry.status == old(registry.status)[jobId := Jobs.Error]
    ensures reply == Processing && Load(sheet, highlightType, uanColumn, esicColumn, siteColumn).Failure? ==>
              files == map[] && registry.progress == old(registry.progress)
              && registry.status == old(registry.status)[jobId := Jobs.Error]
    ensures reply == Processing && Load(sheet, highlightType, uanColumn, esicColumn, siteColumn).Success? ==>
              var records := Load(sheet, highlightType, uanColumn, esicColumn, siteColumn).value;
              var run := FortuneRun(records, highlightType, pageCount, search, JobStyle(color, mode, opacity));
              var sites := UniqueSites(records);
              && files == FilesAfter(run, sites, |sites|)
              && registry.progress == old(registry.progress)[jobId := Last(Writes(run, sites, |sites|))]
              && registry.status == old(registry.status)[jobId := Jobs.Completed]
  {
    if !filesFound {
      registry.SetStatus(jobId, Jobs.Error);
      return FilesNotFound, map[];
    }
    if !ColumnsSelected(highlightType, uanColumn, esicColumn, siteColumn) {
      registry.SetStatus(jobId, Jobs.Error);
      return ColumnsNotSelected, map[];
    }
    var style := JobStyle(color, mode, opacity);
    var ok;
    ok, files := HighlightUansBySite(registry, jobId, sheet, highlightType, uanColumn, esicColumn, siteColumn,
                                    pageCount, search, style);
    reply := Processing;
  }
}
