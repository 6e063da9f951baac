# Fortune task-automation tools, modelled in Dafny

The fortune repository is a set of small Flask apps for an HR department.

- **Identifier highlighting.** This is the core. A workbook lists employee identifiers: 12-digit UAN numbers or 10-digit ESIC numbers, each with a site. For every site, the tool marks that site's identifiers wherever they occur in a large PDF. It then writes a per-site PDF holding only the pages worth keeping. The work runs as a background job whose progress and status a browser polls.
  - Two copies of this pipeline exist. `fortune_automation_tools/app.py` validates the identifiers and keeps the last page only for UAN jobs. `fortune_task_automation_apps/uan_highlight/app.py` does no validation and always keeps the last page.
- **PF name mismatch.** The same app compares the name in an ECR table with the UAN-repository name. It reports the rows whose names disagree on their first four, last four or middle two characters.
- **Agreement tracker** (`agreement_tracker/app.py`). A table of agreements:
  - a stored status that is refreshed to Expired once the end date passes;
  - day-range buckets and filters;
  - renewals as linked rows, and the link chain as a history;
  - remove, terminate, and the choice of e-mail recipient.
- **Agreement reminder** (`fortune_task_automation_apps/agreement_reminder_new/app.py`). Agreements owned by users:
  - days left and the 60-day expiring window;
  - renewals that snapshot the old dates and bump a counter;
  - removal, which moves the file to a fresh name and drops the renewals.

How the model is laid out:

| file | module | what it holds |
|---|---|---|
| `wrappers.dfy` | `Wrappers` | `Option` and `Result` |
| `text.dfy` | `Text` | the Python string operations the apps use: `strip`, `lower`, `split`/`join`, `replace`, `isalnum` sanitising, `allowed_file` |
| `jobs.dfy` | `Jobs` | the class `JobRegistry`, the two job dictionaries and `upload_files` |
| `pipeline.dfy` | `Pipeline` | cell cleaning, the `number_dict` builder, the unique sites, the loop over sites with its progress writes, and `parse_color` |
| `annotator.dfy` | `Annotator` | `process_pdf_for_site`: the page × identifier × rectangle loops, match counting, pages to keep, and the saved file |
| `fortune.dfy` | `FortuneTools` | the validating loader and driver of `fortune_automation_tools`, plus `process_files` |
| `uan_highlight.dfy` | `UanHighlight` | the non-validating loader and driver of the older copy, plus `process_files` |
| `pf_names.dfy` | `PfNames` | `clean_name`, `clean_name_display`, `get_middle_two_chars`, the match rule and `pf_upload` |
| `agreement_tracker.dfy` | `AgreementTracker` | the class `AgreementTable` and the tracker's routes |
| `agreement_reminder.dfy` | `AgreementReminder` | the class `ReminderStore` and the reminder's routes |

Modelling conventions:

- `page.search_for` is an oracle: a function from page index and identifier to a sequence of rectangles.
- Spreadsheets are sequences of rows. Each row maps a column to a cell that is blank or holds text.
- Dates are integer day numbers. A date text that `strptime` rejects becomes `None`. "Today" is a parameter.
- The loops the source runs are `method`s with loop invariants. Each is proved equal to a left-fold specification function, and the promised properties are lemmas about those functions.
- The state the source mutates is a field of a class:
  - the job dictionaries are `map` fields;
  - the SQLite and SQLAlchemy tables are `seq` fields;
  - the folders of stored and removed files are `set` fields.

The two variants differ in three places. The model captures each with a parameter or a separate loader:

- **Validation.** `FortuneTools.Load` keeps only all-digit 12- or 10-character identifiers. `UanHighlight.Load` keeps everything.
- **Boundary page.** With `keepLast` false, only page 0 is always kept. `FortuneTools` sets it to `highlight_type == "uan"`; `UanHighlight` always sets it to true (`fortune_task_automation_apps/uan_highlight/app.py:145`).
- **Output name.** The file-name suffix is `_<highlight_type>.pdf` in one copy and `.pdf` in the other.

### Progress

- **Rounding.** Progress after the k-th of n sites is `int((idx + 1) / total * 100)`, which truncates rather than rounds (`fortune_automation_tools/app.py:204`).
- **Final progress.** Progress is written only for sites that are not skipped (`fortune_task_automation_apps/uan_highlight/app.py:93-94,116`). So in the non-validating copy a job whose last sites are all skipped completes with progress below 100.
  - `UanHighlight.SkippedSiteCompletesBelowFull` proves this for a one-site sheet whose only identifier cell is blank.
  - `UanHighlight.TrailingSkipBelowFull` proves it in general.
  - In the validating copy every listed site keeps a non-empty dictionary. So completion implies 100 when at least one valid row names a site (`FortuneTools.EverySiteProcessed`).
  - When every valid row has a blank site cell, the copy lists no site. The job then completes at progress 0 and writes no file (`FortuneTools.SitelessCompletesAtZero`).

## Model

Source paths are relative to the repository root.

| member | source | states |
|---|---|---|
| Text.Lower | fortune_automation_tools/app.py:96 | `lower()` keeps the length and lower-cases each character on its own (ASCII) |
| Text.LowerIdempotent | fortune_automation_tools/app.py:96 | lower-casing twice is the same as once |
| Text.Strip | fortune_automation_tools/app.py:149 | `strip()` returns the infix left after removing only whitespace at both ends; the result neither starts nor ends with whitespace |
| Text.StripDigits | fortune_automation_tools/app.py:149-156 | stripping an all-digit identifier leaves it unchanged |
| Text.RemoveChar | fortune_automation_tools/app.py:177 | `replace(" ", "")` leaves no blank and never lengthens the text |
| Text.RemoveCharAppend | fortune_automation_tools/app.py:177 | `replace(c, "")` drops a character exactly when it is `c` and works character by character: removing from `a + b` is removing from `a`, then from `b` |
| Text.RemoveBlankIsRemoveSpaces | fortune_automation_tools/app.py:469 | on text whose only whitespace is blanks, removing blanks removes all whitespace |
| Text.ReplaceChar | fortune_automation_tools/app.py:94 | `replace('\n', ' ')` changes exactly the newline positions and keeps the length |
| Text.ReplaceSpaceKeepsText | fortune_automation_tools/app.py:94-95 | turning one whitespace character into another does not change the non-whitespace text |
| Text.Words | fortune_automation_tools/app.py:95 | `split()` yields non-empty words free of whitespace |
| Text.WordsOfWord | fortune_automation_tools/app.py:95 | a non-empty text without whitespace splits into itself alone |
| Text.WordLengthStops | fortune_automation_tools/app.py:95 | a word ends at the first whitespace character |
| Text.WordsSplit | fortune_automation_tools/app.py:95 | `split()` cuts at whitespace: the words of `a + w + b` for a whitespace `w` are the words of `a` followed by those of `b` |
| Text.WordsKeepText | fortune_automation_tools/app.py:95 | the words of `split()`, concatenated, are exactly the text with all whitespace removed |
| Text.JoinCollapsed | fortune_automation_tools/app.py:95 | `' '.join` of such words has single blanks only, none at the ends, and loses no characters |
| Text.WordsOfJoin | fortune_automation_tools/app.py:95 | splitting `' '.join(ws)` gives back `ws` for non-empty, whitespace-free words |
| Text.CollapsedIsJoin | fortune_automation_tools/app.py:95 | a collapsed text is its own words joined by single blanks |
| Text.CollapseSpacesSpec | fortune_automation_tools/app.py:95 | `' '.join(s.split())` is collapsed and has exactly the words of `s`, so it keeps the non-whitespace text in order; it is the only collapsed text with those words, so collapsing twice is collapsing once |
| Text.SafeName | fortune_automation_tools/app.py:183 | the sanitised site name has the same length; each alphanumeric character is kept and every other becomes `_` |
| Text.SafeNameSpec | fortune_automation_tools/app.py:183 | sanitising is idempotent and yields only alphanumerics and `_` |
| Text.SafeNameCollides | fortune_task_automation_apps/uan_highlight/app.py:96-97 | two distinct sites ("A B" and "A-B") get the same sanitised name |
| Text.AfterLast | fortune_automation_tools/app.py:65 | `rsplit('.', 1)[1]` is the dot-free suffix after the last dot, or the whole name when it has no dot |
| Text.AllowedFileByExtension | fortune_automation_tools/app.py:64-65 | `stem.ext` is allowed exactly when the lower-cased `ext` is an allowed extension, whatever the stem holds |
| Text.NoDotNotAllowed | fortune_automation_tools/app.py:65 | a name without a dot is never allowed |
| Jobs.JobRegistry.constructor | fortune_automation_tools/app.py:54-55 | both job dictionaries start empty |
| Jobs.JobRegistry.SetProgress | fortune_automation_tools/app.py:204 | a progress write changes that job's progress only, and `get_progress` then reports it |
| Jobs.JobRegistry.SetStatus | fortune_automation_tools/app.py:206 | a status write changes that job's status only |
| Jobs.JobRegistry.Cleanup | fortune_automation_tools/app.py:639-640 | cleanup drops both entries of the job, which then polls as progress 0 and 'processing'; every other job polls as before |
| Jobs.JobRegistry.UploadFiles | fortune_automation_tools/app.py:322-358 | the job is registered with progress 0; its status ends 'processing' on success and 'error' on any rejection; the reply is `UploadOutcome` |
| Jobs.UploadOutcome | fortune_automation_tools/app.py:330-358 | success exactly when both files are named, have the right extensions and the workbook reads; success returns the column list; a missing file is reported first |
| Jobs.UploadByExtensions | fortune_automation_tools/app.py:334-336 | a named pair is accepted exactly when the extensions are `xlsx` and `pdf` in any case, otherwise rejected as invalid types |
| Pipeline.DropDotZero | fortune_automation_tools/app.py:149 | the regex `\.0$` removes one trailing ".0", also one standing before a final newline, and otherwise changes nothing |
| Pipeline.CleanFloatText | fortune_automation_tools/app.py:149 | an identifier read as a float ("123.0") cleans back to its digits |
| Pipeline.CleanCellExamples | fortune_automation_tools/app.py:149 | only one ".0" goes ("7.0.0" gives "7.0"); a blank cell becomes the text "nan" |
| Pipeline.Records | fortune_automation_tools/app.py:149 | one record per sheet row, whose identifier is the row's cleaned target cell |
| Pipeline.BuildNumberDict | fortune_automation_tools/app.py:171-178 | the row loop builds exactly the dictionary `DictOf` specifies |
| Pipeline.PutSpec | fortune_automation_tools/app.py:178 | inserting a key keeps the keys distinct and every value "regular", and adds exactly that key |
| Pipeline.DictOfSpec | fortune_automation_tools/app.py:171-181 | a site's dictionary has distinct keys, all "regular"; a key is in it iff some row of that site has a non-empty, non-"nan" identifier that loses its blanks to become that key |
| Pipeline.DictEmptyIff | fortune_automation_tools/app.py:180-181 | a site's dictionary is empty (so the site is skipped) iff no row contributes a key |
| Pipeline.UniqueSitesSpec | fortune_automation_tools/app.py:165 | `dropna().unique()` lists each non-blank site exactly once, and nothing else |
| Pipeline.NoSiteCells | fortune_automation_tools/app.py:165 | rows whose site cells are all blank list no site |
| Pipeline.UniqueSitesOrder | fortune_automation_tools/app.py:165 | `unique()` lists sites in order of first appearance: a site listed earlier occurs in a row before every row of a later one |
| Pipeline.PercentBounds | fortune_automation_tools/app.py:204 | the progress value is at most 100 and is 100 after the last site |
| Pipeline.PercentMonotone | fortune_automation_tools/app.py:204 | progress never decreases as more sites are done |
| Pipeline.PercentBelowFull | fortune_automation_tools/app.py:204 | progress after any site but the last is below 100 |
| Pipeline.ProcessSite | fortune_automation_tools/app.py:170-202 | one site produces the file `process_pdf_for_site` saves for its dictionary; it is processed iff the dictionary is non-empty |
| Pipeline.SiteTurn | fortune_automation_tools/app.py:169-204 | one loop turn adds that site's file and writes progress only when the site is not skipped; status is untouched |
| Pipeline.RunSites | fortune_automation_tools/app.py:165-207 | the site loop leaves exactly the specified files, the last progress written, and status 'completed' |
| Pipeline.WritesSpec | fortune_automation_tools/app.py:167-204 | every progress value written lies in 0..100, the values never decrease, and none exceeds the share of sites seen |
| Pipeline.LastSiteFull | fortune_automation_tools/app.py:204 | when the last site is processed, the final progress is 100 |
| Pipeline.AllSkippedWritesZero | fortune_automation_tools/app.py:180-181 | when every site is skipped, progress stays at its initial 0 |
| Pipeline.LastWriteIsLastProcessed | fortune_automation_tools/app.py:180-204 | the final progress is `k*100/total` for the last processed site k |
| Pipeline.FilesAfterNames | fortune_automation_tools/app.py:183-184 | the output folder holds a name iff some site produced a file under that sanitised name |
| Pipeline.FilesAfterContents | fortune_automation_tools/app.py:183-186 | a site whose name no later site shares keeps its own file under its name |
| Pipeline.SiteFileInjective | fortune_automation_tools/app.py:183-184 | two sites write to the same output path exactly when their sanitised names agree |
| Pipeline.ParseColor | fortune_automation_tools/app.py:387-397 | every parsed colour has components in 0..1 and alpha 1 |
| Pipeline.ParseColorSpec | fortune_automation_tools/app.py:388-397 | colour names are case-insensitive, and an unknown name gives red |
| Pipeline.JobStyle | fortune_automation_tools/app.py:401-415 | a job draws with the default margins, special colour and width, the parsed border colour, and the chosen mode and opacity |
| Annotator.MarkEnclosesMatch | fortune_automation_tools/app.py:246-251 | with non-negative margins an expanded box encloses the match rectangle |
| Annotator.Ascending | fortune_automation_tools/app.py:281 | `sorted(pages_to_keep)` is strictly ascending, holds each page of the set once, and nothing else |
| Annotator.KeptWithinDocument | fortune_automation_tools/app.py:234-276 | when something matched, every kept page is a page of the document |
| Annotator.MarkRects | fortune_automation_tools/app.py:245-274 | the rectangle loop appends the specified marks |
| Annotator.ScanPage | fortune_automation_tools/app.py:239-276 | the identifier loop of one page yields the specified marks and match count |
| Annotator.ScanDocument | fortune_automation_tools/app.py:233-277 | the page loop yields the specified annotations, total and page set |
| Annotator.ProcessPdfForSite | fortune_automation_tools/app.py:214-289 | the specified annotations, total and pages; a file is saved iff the total is positive, and it is the specified file |
| Annotator.RectMarksCount | fortune_automation_tools/app.py:254-274 | each rectangle gives one mark in a recognised mode and none in an unrecognised one |
| Annotator.PageMarksCount | fortune_automation_tools/app.py:240-274 | a page's marks number its matches in a drawing mode, else zero |
| Annotator.DocMarksCount | fortune_automation_tools/app.py:238-277 | the document's marks number its total matches in a drawing mode, else zero |
| Annotator.DocMarksExplained | fortune_automation_tools/app.py:238-277 | every annotation lies on a kept page of the document and comes from a search result for a dictionary identifier, expanded or underlined as the mode says |
| Annotator.DocMarksOnMatchedPages | fortune_automation_tools/app.py:238-276 | every annotation is on a page with at least one match |
| Annotator.DocMarkPage | fortune_automation_tools/app.py:238-276 | every annotation of the document is one of the marks of some page of it |
| Annotator.PageMarkExplained | fortune_automation_tools/app.py:240-274 | a mark of a page lies on that page, the page has a match, and the mark comes from a search result for a dictionary identifier |
| Annotator.DocMarkExplained | fortune_automation_tools/app.py:238-276 | an annotation of the document lies on a page of it that has a match, and comes from a search result |
| Annotator.KeptPagesSpec | fortune_automation_tools/app.py:234-276 | page 0 is always kept; the last page is kept when keepLast holds; any other page is kept iff it is in the document and has a match |
| Annotator.NoMatchNoFile | fortune_automation_tools/app.py:279-289 | when the search finds nothing for any identifier, nothing is saved |
| Annotator.SavedFileSpec | fortune_automation_tools/app.py:279-286 | the saved file lists the kept pages once each in ascending order, starts with page 0, and annotates only pages it carries |
| FortuneTools.KeepIff | fortune_automation_tools/app.py:151-157 | a cleaned identifier survives iff it is all digits and 12 long for 'uan', 10 long otherwise |
| FortuneTools.Survivors | fortune_automation_tools/app.py:152-158 | every surviving row passes the filter, and a row survives iff it is in the input and passes |
| FortuneTools.SurvivorsAppend | fortune_automation_tools/app.py:152-158 | the filter works row by row: one row survives exactly when it passes, and the survivors of `a + b` are those of `a` followed by those of `b`, so order and repetitions are kept |
| FortuneTools.Load | fortune_automation_tools/app.py:139-163 | an unreadable workbook, then a missing target column, then a missing site column are reported as such; otherwise the load is the filtered rows, or `NoValidRows` when none survive; every survivor passes validation |
| FortuneTools.HighlightUansBySite | fortune_automation_tools/app.py:112-212 | returns True iff the load succeeds; on failure nothing is written and status is 'error'; on success the site files, the last progress and 'completed' are as specified |
| FortuneTools.SurvivorKey | fortune_automation_tools/app.py:174-178 | a validated identifier is its own dictionary key |
| FortuneTools.DictIsSiteIdentifiers | fortune_automation_tools/app.py:170-178 | after validation a site's dictionary keys are exactly that site's identifiers |
| FortuneTools.EverySiteProcessed | fortune_automation_tools/app.py:160-206 | after validation no listed site is skipped; with at least one site a completed job ends at progress 100, with none it ends at 0 and writes no file |
| FortuneTools.SitelessCompletesAtZero | fortune_automation_tools/app.py:165-206 | when every valid row has a blank site, no site is listed, the progress stays at the initial 0 and no file is written |
| FortuneTools.ProcessFiles | fortune_automation_tools/app.py:360-418 | missing files, then unselected columns, set 'error' and start nothing; a failed load sets 'error', leaves progress alone and writes nothing; otherwise the run gives the specified files, the last progress written and 'completed' |
| UanHighlight.Load | fortune_task_automation_apps/uan_highlight/app.py:72-78 | the load succeeds iff both columns exist, and then keeps every row, cleaned, without validation; an unreadable workbook and missing columns are reported as such |
| UanHighlight.HighlightUansBySite | fortune_task_automation_apps/uan_highlight/app.py:47-124 | True iff both columns exist; on failure status 'error' and no files; on success the specified files, last progress and 'completed' |
| UanHighlight.NoValidation | fortune_task_automation_apps/uan_highlight/app.py:86-91 | a non-numeric identifier with a blank still becomes a key, with its blank removed |
| UanHighlight.NoUanSheetLoads | fortune_task_automation_apps/uan_highlight/app.py:72-78 | a sheet whose one identifier cell is blank loads as the single identifier "nan" |
| UanHighlight.NanSiteSkipped | fortune_task_automation_apps/uan_highlight/app.py:83-94 | a site whose only identifier is "nan" is skipped: no file and no progress write |
| UanHighlight.SkippedSiteCompletesBelowFull | fortune_task_automation_apps/uan_highlight/app.py:78-118 | that sheet completes with progress 0 and no output |
| UanHighlight.TrailingSkipBelowFull | fortune_task_automation_apps/uan_highlight/app.py:93-116 | when the sites after the k-th are all skipped, the job completes at `k*100/total`, below 100 |
| UanHighlight.ProcessFiles | fortune_task_automation_apps/uan_highlight/app.py:247-296 | missing files set 'error'; a failed load sets 'error', leaves progress alone and writes nothing; otherwise the run gives the specified files, the last progress written and 'completed' |
| PfNames.DisplayNameSpec | fortune_automation_tools/app.py:467-470 | the displayed name has no blanks: the text with all whitespace removed, or "" for a non-text cell |
| PfNames.CleanIsLowerDisplay | fortune_automation_tools/app.py:91-102 | `clean_name` is `clean_name_display` lower-cased, of the same length, and the displayed form is already clean: cleaning it again changes nothing |
| PfNames.MiddleTwo | fortune_automation_tools/app.py:104-110 | the stripped text when under 2 long, else its two characters around the midpoint |
| PfNames.MiddleTwoCentred | fortune_automation_tools/app.py:109-110 | those two characters are centred, or one place left of centre for odd lengths |
| PfNames.Prefix4 | fortune_automation_tools/app.py:462 | `str[:4]` is the first up-to-4 characters |
| PfNames.Suffix4 | fortune_automation_tools/app.py:463 | `str[-4:]` is the last up-to-4 characters |
| PfNames.NameMatchSpec | fortune_automation_tools/app.py:461-465 | names equal after cleaning match, and the match is symmetric |
| PfNames.PlainNamesMatch | fortune_automation_tools/app.py:456-465 | for lower-case single-word names of equal length ≥ 8, a match is exactly agreement on first 4, last 4 and middle 2 |
| PfNames.DifferentNamesMatch | fortune_automation_tools/app.py:461-465 | two different 12-letter names that differ only at positions 4 and 7 still match, so they are not reported |
| PfNames.Mismatches | fortune_automation_tools/app.py:472 | the report holds exactly the numbered, non-matching rows, with display names |
| PfNames.MismatchesAppend | fortune_automation_tools/app.py:472 | the report works row by row: one row gives its report row exactly when it is reported, and the report of `a + b` is that of `a` followed by that of `b`, so table order and repetitions are kept |
| PfNames.ReportSpec | fortune_automation_tools/app.py:461-472 | reported names carry no blanks, and a row whose names clean to the same text is never reported |
| PfNames.InnerPages | fortune_automation_tools/app.py:445 | `pages[1:-1]`: empty for two pages or fewer, otherwise the pages without the first and last |
| PfNames.ExtractRows | fortune_automation_tools/app.py:443-450 | the loop over the inner pages and their table rows yields the rows `Collected` specifies: the first four cells of each row after the header, or failure on a shorter row |
| PfNames.PfUpload | fortune_automation_tools/app.py:420-492 | a file is refused as invalid exactly when it is missing or not named `*.pdf`; an accepted file is reported malformed exactly when an extracted table has a row of fewer than four cells; otherwise the answer is the mismatch report, or "no mismatches" when that is empty |
| AgreementTracker.DaysRemaining | agreement_tracker/app.py:172-176 | days remaining exist iff the end date parses, and then end date = today + days |
| AgreementTracker.RefreshedStatus | agreement_tracker/app.py:179-181 | the only change is Active → Expired, made exactly when the end date parses and is at most today |
| AgreementTracker.RefreshSpec | agreement_tracker/app.py:179-182 | refreshing changes nothing but the status and is idempotent |
| AgreementTracker.RefreshSeq | agreement_tracker/app.py:171-182 | the refreshed table refreshes each row on its own |
| AgreementTracker.Bucket | agreement_tracker/app.py:208-216 | 0..10, 11..30 and 31..60 fall in their buckets; anything else, or no date, in none |
| AgreementTracker.CountBuckets | agreement_tracker/app.py:208-216 | the counting loop gives the specified counts, which sum to the number of rows within 0..60 days |
| AgreementTracker.TallyTotal | agreement_tracker/app.py:209-216 | the three counts sum to the number of rows within 0..60 days |
| AgreementTracker.DaysOf | agreement_tracker/app.py:171-176 | one days-remaining value per row, in order |
| AgreementTracker.InsertByDays | agreement_tracker/app.py:352-353 | one insertion step adds exactly the new row |
| AgreementTracker.InsertSorted | agreement_tracker/app.py:352-353 | inserting into a sorted list keeps it sorted |
| AgreementTracker.SortByDays | agreement_tracker/app.py:352-353 | the sort is a permutation whose known day counts ascend, with the unknown ones last |
| AgreementTracker.ViewRowsSpec | agreement_tracker/app.py:327-346 | the view lists exactly the rows, enriched and refreshed, whose status passes the filter |
| AgreementTracker.ExpiringRowsSpec | agreement_tracker/app.py:375-407 | the expiring table lists exactly the rows within 0..60 days that pass both the range and the status filter |
| AgreementTracker.ExpiringAllCount | agreement_tracker/app.py:389-407 | with both filters 'all', the table is as long as the three counts together |
| AgreementTracker.IndexOf | agreement_tracker/app.py:423-424 | `WHERE id = ?` finds the first row with that id, or reports that none has it |
| AgreementTracker.ChainSpec | agreement_tracker/app.py:500-517 | the walk starts at the given id, each step follows the previous link to a smaller id, each row visited is the first table row with its id, and the walk ends at a row whose link is empty, 0 or names no row |
| AgreementTracker.Reverse | agreement_tracker/app.py:519 | `reverse()` keeps the length and mirrors the positions |
| AgreementTracker.HistorySpec | agreement_tracker/app.py:497-525 | history is empty iff the id is 0 or absent; otherwise it ends with the requested agreement, runs oldest first along the links, starts at a row whose link is empty, 0 or names no row, and each entry is the refreshed table row with its id |
| AgreementTracker.Without | agreement_tracker/app.py:560 | `DELETE` keeps exactly the rows with another id |
| AgreementTracker.RemoveSpec | agreement_tracker/app.py:556-560 | after removal no row has the id or links to it; the others remain with only that link cleared |
| AgreementTracker.Recipients | agreement_tracker/app.py:681-685 | the recipients are the non-empty first and second e-mails, first one first |
| AgreementTracker.EmailDecision | agreement_tracker/app.py:676-696 | an absent id is reported; two addresses ask for a choice; exactly one is mailed directly; none is an error |
| AgreementTracker.RenewalRow | agreement_tracker/app.py:472-479 | the new row is Active, keeps the company and links back to the renewed row |
| AgreementTracker.RenewExtendsHistory | agreement_tracker/app.py:468-479 | after a renewal the new row's history is the old row's history plus the new row |
| AgreementTracker.AgreementTable.constructor | agreement_tracker/app.py:39-53 | the table starts empty, with ids from 1 |
| AgreementTracker.AgreementTable.UploadAgreement | agreement_tracker/app.py:241-310 | a bad start date, no file, or a file not found once saved change nothing; a form that passes all three always appends one Active, unlinked row with the stored path under the next id |
| AgreementTracker.AgreementTable.Dashboard | agreement_tracker/app.py:162-195 | the table is refreshed; "no agreements" iff it was empty; the bucket counts are those of the rows |
| AgreementTracker.AgreementTable.ViewAgreements | agreement_tracker/app.py:315-354 | the table is refreshed, and the view is the filtered rows, sorted, with unknown days last |
| AgreementTracker.AgreementTable.ExpiringAgreements | agreement_tracker/app.py:359-414 | the table is refreshed; the counts are the buckets; the table lists the filtered rows within the window, sorted |
| AgreementTracker.AgreementTable.RenewAgreement | agreement_tracker/app.py:419-487 | an absent id, a bad start date, or a document not stored (no file name, or not found once saved) change nothing; otherwise the row always goes Renewed and a linked Active row is added under the next id |
| AgreementTracker.AgreementTable.AgreementHistory | agreement_tracker/app.py:492-527 | returns the history; refreshes exactly the rows on the chain |
| AgreementTracker.AgreementTable.RemoveAgreement | agreement_tracker/app.py:532-565 | found iff the id exists; then the row is deleted and its links cleared, otherwise nothing changes |
| AgreementTracker.AgreementTable.TerminateAgreement | agreement_tracker/app.py:570-591 | found iff the id exists; then only that row is terminated, otherwise nothing changes |
| AgreementTracker.ScanDashboard | agreement_tracker/app.py:171-187 | the row loop refreshes the table and collects the days remaining |
| AgreementTracker.ScanView | agreement_tracker/app.py:327-346 | the row loop refreshes the table and collects the filtered view |
| AgreementTracker.ScanExpiring | agreement_tracker/app.py:375-407 | the row loop refreshes the table, counts the buckets and collects the expiring rows |
| AgreementTracker.WalkHistory | agreement_tracker/app.py:500-519 | the while-loop yields the history and refreshes exactly the rows it visits |
| AgreementTracker.RefreshKeepsWellFormed | agreement_tracker/app.py:179-182 | refreshing keeps ids unique and links pointing to older rows |
| AgreementTracker.RemoveKeepsWellFormed | agreement_tracker/app.py:556-560 | removing keeps ids unique and links pointing to older rows |
| AgreementTracker.UnlinkKeepsWellFormed | agreement_tracker/app.py:557 | clearing links keeps the table well formed |
| AgreementTracker.WithoutKeepsWellFormed | agreement_tracker/app.py:560 | deleting a row keeps the table well formed |
| AgreementTracker.WithoutKeepsUnique | agreement_tracker/app.py:560 | deleting a row keeps ids unique |
| AgreementTracker.TerminatedSpec | agreement_tracker/app.py:585-586 | a terminated row has 0 days left, falls in the 0-10 bucket and stays Expired on every later refresh |
| AgreementReminder.AllowedUploadSpec | fortune_task_automation_apps/agreement_reminder_new/app.py:70-71 | `stem.ext` is allowed exactly when lower-cased `ext` is pdf, jpg, jpeg or png |
| AgreementReminder.DaysLeft | fortune_task_automation_apps/agreement_reminder_new/app.py:107 | days left reach the end date from today, or are 0 once it has passed |
| AgreementReminder.DaysLeftZero | fortune_task_automation_apps/agreement_reminder_new/app.py:107 | days left are 0 iff the end date is today or earlier, and never below the true difference |
| AgreementReminder.Mine | fortune_task_automation_apps/agreement_reminder_new/app.py:101 | `filter_by(user_id=...)` keeps exactly the user's agreements |
| AgreementReminder.ExpiringMembers | fortune_task_automation_apps/agreement_reminder_new/app.py:123-126 | the filter keeps exactly the agreements ending between today and today + 60 |
| AgreementReminder.ExpiringAppend | fortune_task_automation_apps/agreement_reminder_new/app.py:123-126 | the filter keeps the original order |
| AgreementReminder.ExpiringDays | fortune_task_automation_apps/agreement_reminder_new/app.py:125-131 | an expiring agreement's days left are its end date minus today, in 0..60 |
| AgreementReminder.ExpiringSoonCount | fortune_task_automation_apps/agreement_reminder_new/app.py:277-280 | the dashboard count equals the length of the expiring list |
| AgreementReminder.Find | fortune_task_automation_apps/agreement_reminder_new/app.py:231 | `get_or_404` finds a row with the id, or reports that none has it |
| AgreementReminder.Authorize | fortune_task_automation_apps/agreement_reminder_new/app.py:231-234 | not found iff the id is absent; unauthorised iff it belongs to another user; otherwise the user's row |
| AgreementReminder.NewId | fortune_task_automation_apps/agreement_reminder_new/app.py:46 | a new primary key is at least 1 and above every id in use |
| AgreementReminder.RenewalCountAppend | fortune_task_automation_apps/agreement_reminder_new/app.py:362-374 | adding a renewal raises its agreement's count of renewal records by one and no other |
| AgreementReminder.DropRenewals | fortune_task_automation_apps/agreement_reminder_new/app.py:252 | deleting renewals keeps exactly those of other agreements |
| AgreementReminder.DropRenewalsCount | fortune_task_automation_apps/agreement_reminder_new/app.py:252 | after the delete the removed agreement has no renewals, and the others keep theirs |
| AgreementReminder.SplitExt | fortune_task_automation_apps/agreement_reminder_new/app.py:243 | `splitext` splits the name into base plus an extension that is empty or one dot and no further dot |
| AgreementReminder.ProbeInjective | fortune_task_automation_apps/agreement_reminder_new/app.py:243-248 | the candidate names `name`, `base_1.ext`, `base_2.ext`, … are all different |
| AgreementReminder.ProbedSize | fortune_task_automation_apps/agreement_reminder_new/app.py:244-248 | the first k candidates are k distinct names, so the probing loop ends |
| AgreementReminder.FreeName | fortune_task_automation_apps/agreement_reminder_new/app.py:241-248 | the loop returns the first free candidate: the original name iff it is free, else `base_k.ext` for the smallest free k ≥ 1 |
| AgreementReminder.Basename | fortune_task_automation_apps/agreement_reminder_new/app.py:240 | the base name is the slash-free tail of the path |
| AgreementReminder.RemoveAt | fortune_task_automation_apps/agreement_reminder_new/app.py:255 | deleting the row drops exactly that position |
| AgreementReminder.ConsistentUpload | fortune_task_automation_apps/agreement_reminder_new/app.py:323-333 | a new agreement with a fresh id and count 0 keeps the store consistent |
| AgreementReminder.ConsistentRenew | fortune_task_automation_apps/agreement_reminder_new/app.py:362-375 | one renewal record plus a count raised by one keeps each count equal to the number of records |
| AgreementReminder.ConsistentRemove | fortune_task_automation_apps/agreement_reminder_new/app.py:252-256 | deleting an agreement together with its renewals keeps the store consistent, and no row keeps its id |
| AgreementReminder.MoveToRemoved | fortune_task_automation_apps/agreement_reminder_new/app.py:238-249 | a missing file moves nothing; an existing file leaves the upload folder for the first free candidate name in the removed folder: its own name iff that is free, else the `counter`-th candidate with every earlier one taken |
| AgreementReminder.MailLines | fortune_task_automation_apps/agreement_reminder_new/app.py:159-184 | the email table has one line per expiring agreement, in order, showing its fields, "-" for a missing e-mail, and its days left |
| AgreementReminder.ReminderStore.constructor | fortune_task_automation_apps/agreement_reminder_new/app.py:44-63 | the store starts empty and consistent |
| AgreementReminder.ReminderStore.AllAgreements | fortune_task_automation_apps/agreement_reminder_new/app.py:98-113 | the listing pairs each of the user's agreements, in order, with its non-negative days left |
| AgreementReminder.ReminderStore.ExpiringAgreements | fortune_task_automation_apps/agreement_reminder_new/app.py:115-140 | the listing is the user's agreements in the 60-day window, in order, with days in 0..60, and the count is its length |
| AgreementReminder.ReminderStore.Dashboard | fortune_task_automation_apps/agreement_reminder_new/app.py:269-288 | `expiring_soon` counts the user's agreements in the window |
| AgreementReminder.ReminderStore.SendExpiryEmails | fortune_task_automation_apps/agreement_reminder_new/app.py:142-226 | nothing is sent iff no agreement of the user is in the window; otherwise one table line per expiring agreement, in order |
| AgreementReminder.ReminderStore.Upload | fortune_task_automation_apps/agreement_reminder_new/app.py:290-337 | missing fields, a wrong type and a bad date are refused in that order and change nothing; a form that passes all three always adds one agreement under a new id with count 0 and stores its file |
| AgreementReminder.ReminderStore.Renew | fortune_task_automation_apps/agreement_reminder_new/app.py:339-380 | only the owner may renew and bad dates change nothing; an owned agreement with valid dates is always renewed: a record keeps the old dates and the renewal date, the new dates are set, an empty e-mail becomes none and the count goes up by 1 |
| AgreementReminder.ReminderStore.RemoveAgreement | fortune_task_automation_apps/agreement_reminder_new/app.py:228-267 | only the owner may remove, and an owned agreement is always removed: its row and renewals are deleted and its file moves to the first free candidate name in the removed folder |
| AgreementReminder.ReminderStore.RemoveOwned | fortune_task_automation_apps/agreement_reminder_new/app.py:236-255 | for an owned agreement the file moves to the first free name, the row and its renewal records go, and the store stays consistent |
| AgreementReminder.ReminderStore.MoveFile | fortune_task_automation_apps/agreement_reminder_new/app.py:238-249 | the file moves (if it exists) to the first free candidate name in the removed folder; the rows are untouched |
| AgreementReminder.ReminderStore.DeleteRow | fortune_task_automation_apps/agreement_reminder_new/app.py:251-255 | exactly the row and the renewal records of its agreement are deleted, and the store stays consistent |
| AgreementReminder.ReminderStore.Download | fortune_task_automation_apps/agreement_reminder_new/app.py:382-393 | only the owner gets the file, sent as its base name from the directory holding it |

## Left out

- Web plumbing is not modelled: Flask routing, sessions, login and bcrypt, templates, flash messages, JSON replies and referrer-based redirects. The modelled reply is the outcome value each route picks.
- Databases: the SQLite table and the SQLAlchemy models are in-memory sequences. The DDL, the column migrations, commits and rollbacks are storage I/O.
- Files:
  - Folders are sets of names. `makedirs`, zip archives, `rmtree`, `os.listdir` and `send_file`/`send_from_directory` are filesystem I/O.
  - In the agreement tracker, whether a saved upload is found on disk is an input flag of the form (`fileSaved`).
  - `secure_filename` and the timestamped upload name are left out because they depend on the clock and on werkzeug's own rules. The stored path is a parameter.
- PDF and spreadsheet libraries: PyMuPDF search, annotation rendering, `insert_pdf` and compressed saving; pdfplumber table extraction; pandas `read_excel`/`to_excel`; matplotlib charts and `script.js`. These are foreign calls.
  - Search results are an oracle. Extracted tables are an input. A saved file is a value holding its pages and annotations.
- Concurrency: the background thread and the unsynchronised job dictionaries are modelled as one sequential run.
- Randomness: `uuid4` job ids are a parameter.
- E-mail: SMTP and flask_mail sending, their failure paths and the HTML/text bodies are network I/O. The model stops at the decision of whether to send and to whom, and at the table lines the e-mail lists. The fixed reminder address is not modelled.
- Floating point: coordinates, margins, colour components and opacity are `real`s. Floating-point rounding of the zero-width border, the 0.5 underline offset and the colour constants is not modelled.
- Pipeline.Percent: models `int((idx + 1) / total * 100)` as exact integer floor `k * 100 / total`. The float expression can come out one lower (for 29 of 100 sites it gives 28). Bounds, monotonicity and the exact 100 at the last site hold for both.
- Unicode: `isspace`, `isalnum`, `isdigit` and `lower` are modelled on ASCII (plus the ASCII separator controls `isspace` accepts). Non-ASCII letters, digits and spaces are not.
- Exceptions: these exception paths are modelled, each as a refusal that changes nothing:
  - an unreadable workbook;
  - a short table row in `pf_upload`;
  - date texts that do not parse;
  - the tracker's renewal without a document, whose save raises.
  Other exceptions (disk, library errors) are left out.
- AgreementTracker.AgreementTable: the table holds no folder of files. The write of an uploaded or renewed document is left out, and only its stored path and whether it is found are inputs.
- AgreementTracker.AgreementTable.RemoveAgreement: does not model the deletion of the agreement's file (`os.remove` when it exists, with errors ignored), because the tracker model holds no folder of files.
- Pipeline.Records: a site cell is compared by its text. pandas compares values, so a number and a string with the same text would be two sites there and one here.
- AgreementTracker.SortByDays: states "sorted and a permutation" but not the stability of Python's sort, which also keeps rows with equal days in table order.
- AgreementTracker.History: requires each link to be smaller than its own id (which the AUTOINCREMENT key gives), so that the walk terminates; a link naming no row ends the walk, as in the source. A table whose links form a cycle, which the app cannot create, is not modelled. The cycle would make the source loop forever.
- AgreementTracker.EmailDecision: `select_email` with a chosen address posted back is not modelled, beyond listing the addresses.
- The tracker's Excel export routes (`download_excel`, `download_expiring_excel`) are not modelled. They repeat the refresh and window rules already modelled and then write a spreadsheet.
- PfNames.PfUpload: the mismatch report is returned but not stored in `pf_mismatched_data`, and the output workbook name is not modelled. Both are storage and file I/O.
- AgreementReminder.ReminderStore.Renew: the renewal record's own primary key is not modelled.
- AgreementReminder.ReminderStore.Upload: the e-mail is stored exactly as the form gives it.
- AgreementReminder.ReminderStore.Download: the directory part is the path without its base name (with its trailing `/`). `os.path.dirname` drops that separator; the path that results is the same.
- Login and user accounts in the reminder app: the current user is a parameter.
