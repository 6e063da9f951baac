/**
 * highlight_uans_by_site of the older uan_highlight application. It handles
 * UANs only and does not validate them: after the same cleaning, any cell that
 * is neither empty nor "nan" becomes a number_dict key. Both columns are
 * checked together, output files are named "{site}.pdf", and the first and
 * the last page of the document are always kept. Also the /process route.
 */
module UanHighlight {
  import opened Wrappers
  import opened Text
  import opened Annotator
  import opened Pipeline
  import Jobs

  datatype LoadError = UnreadableWorkbook | MissingColumns

  /** What highlight_uans_by_site does before its site loop: read the workbook
      (None when read_excel raises), check both columns, clean the UAN column.
      A workbook without rows is no error here. */
  function Load(sheet: Option<Sheet>, uanColumn: string, siteColumn: string): (r: Result<seq<Record>, LoadError>)
    ensures r.Success? <==> sheet.Some? && uanColumn in sheet.value.columns && siteColumn in sheet.value.columns
    ensures r.Success? ==> r.value == Records(sheet.value, uanColumn, siteColumn)
    ensures r.Failure? ==> r.error == if sheet.None? then UnreadableWorkbook else MissingColumns
  {
    if sheet.None? then Failure(UnreadableWorkbook)
    else if uanColumn !in sheet.value.columns || siteColumn !in sheet.value.columns then Failure(MissingColumns)
    else Success(Records(sheet.value, uanColumn, siteColumn))
  }

  /** The site loop's parameters for this variant. */
  function UanRun(records: seq<Record>, pageCount: nat, search: Search, style: Style): Run {
    Run(records, pageCount, search, style, "", true)
  }

  /** highlight_uans_by_site. A load error sets the job's status to 'error',
      leaves its progress alone and writes no file; otherwise every site is
      processed as the site loop does and the status ends 'completed'. */
  method HighlightUansBySite(registry: Jobs.JobRegistry, jobId: string, sheet: Option<Sheet>,
                             uanColumn: string, siteColumn: string,
                             pageCount: nat, search: Search, style: Style)
    returns (ok: bool, files: map<string, SavedPdf>)
    modifies registry
    ensures ok <==> Load(sheet, uanColumn, siteColumn).Success?
    ensures Load(sheet, uanColumn, siteColumn).Failure? ==>
              files == map[] && registry.progress == old(registry.progress)
              && registry.status == old(registry.status)[jobId := Jobs.Error]
    ensures Load(sheet, uanColumn, siteColumn).Success? ==>
              var records := Load(sheet, uanColumn, siteColumn).value;
              var run := UanRun(records, pageCount, search, style);
              var sites := UniqueSites(records);
              && files == FilesAfter(run, sites, |sites|)
              && registry.progress == old(registry.progress)[jobId := Last(Writes(run, sites, |sites|))]
              && registry.status == old(registry.status)[jobId := Jobs.Completed]
  {
    var load := Load(sheet, uanColumn, siteColumn);
    if load.Failure? {
      registry.SetStatus(jobId, Jobs.Error);
      return false, map[];
    }
    var run := UanRun(load.value, pageCount, search, style);
    ghost var writes;
    files, writes := RunSites(registry, jobId, run);
    ok := true;
  }

  /** Text that is no identifier at all still becomes a key: "AB 12" gives "AB12". */
  lemma NoValidation()
    ensures DictKey("AB 12") == Some("AB12")
  {
    assert SkipSpace("AB 12") == 0;
    assert "AB 12"[0..] == "AB 12";
    assert TrimEnd("AB 12") == "AB 12";
    assert Strip("AB 12") == "AB 12";
    assert RemoveChar("AB 12", ' ') == "AB12" by {
      assert "AB 12"[1..] == "B 12";
      assert "B 12"[1..] == " 12";
      assert " 12"[1..] == "12";
      assert "12"[1..] == "2";
      assert "2"[1..] == "";
    }
  }

  /** A workbook whose only row has a site but no UAN. */
  const NoUanSheet := Sheet(["uan", "site"], [map["site" := Value("A")]])

  /** A single row without a UAN cell and with site "A" is read as the text
      "nan" at site "A". */
  lemma BlankUanRecords(sheet: Sheet)
    requires |sheet.rows| == 1 && "uan" !in sheet.rows[0]
    requires "site" in sheet.rows[0] && sheet.rows[0]["site"] == Value("A")
    ensures Records(sheet, "uan", "site") == [Record("nan", Some("A"))]
  {
    var rs := Records(sheet, "uan", "site");
    assert CellAt(sheet.rows[0], "uan") == Blank;
    assert rs[0].number == "nan" by { CleanCellExamples(); }
    assert rs[0].site == Some("A") by { assert "site" != "uan"; }
    assert rs == [rs[0]];
  }

  /** Its blank UAN cell is cleaned to the text "nan". */
  lemma NoUanSheetLoads()
    ensures Load(Some(NoUanSheet), "uan", "site") == Success([Record("nan", Some("A"))])
  {
    var row: map<string, Cell> := map["site" := Value("A")];
    assert "uan" !in row;
    BlankUanRecords(NoUanSheet);
  }

  /** "nan" gives no number_dict key, so site "A" is skipped. */
  lemma NanSiteSkipped(pageCount: nat, search: Search, style: Style)
    ensures var records := [Record("nan", Some("A"))];
            var run := UanRun(records, pageCount, search, style);
            && UniqueSites(records) == ["A"]
            && Last(Writes(run, ["A"], 1)) == 0
            && FilesAfter(run, ["A"], 1) == map[]
  {
    var records := [Record("nan", Some("A"))];
    assert records[..0] == [];
    assert UniqueSites(records) == ["A"];
    StripUnpadded("nan");
    assert DictKey("nan") == None;
    assert DictOf(records, "A") == [];
    var run := UanRun(records, pageCount, search, style);
    var sites := ["A"];
    assert !Processed(run, sites, 1);
    assert Writes(run, sites, 1) == [0];
    assert SiteOutput(run, "A") == None;
    assert Outputs(run, sites)[0] == None;
    assert WriteAll(Names(run, sites), Outputs(run, sites), 0) == map[];
  }

  /** The only site's rows carry no identifier, so the site is skipped: the job
      completes with progress 0 and no file. */
  lemma SkippedSiteCompletesBelowFull(pageCount: nat, search: Search, style: Style)
    ensures var records := Load(Some(NoUanSheet), "uan", "site").value;
            var run := UanRun(records, pageCount, search, style);
            var sites := UniqueSites(records);
            && Load(Some(NoUanSheet), "uan", "site").Success?
            && sites == ["A"]
            && Last(Writes(run, sites, |sites|)) == 0
            && FilesAfter(run, sites, |sites|) == map[]
  {
    NoUanSheetLoads();
    NanSiteSkipped(pageCount, search, style);
  }

  /** When the trailing sites are skipped, the job completes with the progress of
      the last processed site, which is below 100. */
  lemma TrailingSkipBelowFull(run: Run, sites: seq<string>, k: nat)
    requires 1 <= k < |sites| && Processed(run, sites, k)
    requires forall m :: k < m <= |sites| ==> !Processed(run, sites, m)
    ensures Last(Writes(run, sites, |sites|)) == Percent(k, |sites|) < 100
  {
    LastWriteIsLastProcessed(run, sites, |sites|, k);
    PercentBelowFull(k, |sites|);
  }

  // ---------------------------------------------------------------------------
  // The /process route

  datatype ProcessReply = FilesNotFound | Processing

  /** process_files: filesFound says whether the job folder holds both an .xlsx
      and a .pdf; without them the status becomes 'error'. Otherwise the
      highlighting runs (here to completion, where the route starts it on a
      thread) with the parsed colour, mode and opacity. */
  method ProcessFiles(registry: Jobs.JobRegistry, jobId: string, filesFound: bool,
                      uanColumn: string, siteColumn: string, mode: string, color: string, opacity: real,
                      sheet: Option<Sheet>, pageCount: nat, search: Search)
    returns (reply: ProcessReply, files: map<string, SavedPdf>)
    modifies registry
    ensures reply == if filesFound then Processing else FilesNotFound
    ensures !filesFound ==> files == map[] && registry.progress == old(registry.progress)
                            && registry.status == old(registry.status)[jobId := Jobs.Error]
    ensures filesFound && Load(sheet, uanColumn, siteColumn).Failure? ==>
              files == map[] && registry.progress == old(registry.progress)
              && registry.status == old(registry.status)[jobId := Jobs.Error]
    ensures filesFound && Load(sheet, uanColumn, siteColumn).Success? ==>
              var records := Load(sheet, uanColumn, siteColumn).value;
              var run := UanRun(records, pageCount, search, JobStyle(color, mode, opacity));
              var sites := UniqueSites(records);
              && files == FilesAfter(run, sites, |sites|)
              && registry.progress == old(registry.progress)[jobId := Last(Writes(run, sites, |sites|))]
              && registry.status == old(registry.status)[jobId := Jobs.Completed]
  {
    if !filesFound {
      registry.SetStatus(jobId, Jobs.Error);
      return FilesNotFound, map[];
    }
    var style := JobStyle(color, mode, opacity);
    var ok;
    ok, files := HighlightUansBySite(registry, jobId, sheet, uanColumn, siteColumn, pageCount, search, style);
    reply := Processing;
  }
}
