/**
 * The job registry both highlighting applications keep in two module-level
 * dictionaries, job_progress and job_status, keyed by job id; and the
 * upload_files route, which registers a job and validates the two uploaded
 * files. The uploaded files, the folders and the zip archive are left out;
 * only what the routes do to the two dictionaries and what they answer is
 * modelled.
 */
module Jobs {
  import opened Wrappers
  import Text

  /** The job_status values 'processing', 'completed' and 'error'. */
  datatype Status = Processing | Completed | Error

  /** job_progress and job_status. */
  class JobRegistry {
    var progress: map<string, int>
    var status: map<string, Status>

    /** Both dictionaries start empty. */
    constructor ()
      ensures progress == map[] && status == map[]
    {
      progress := map[];
      status := map[];
    }

    /** What get_progress answers for a job id: its progress, 0 when none is
        recorded, and its status, 'processing' when none is recorded. */
    function Poll(jobId: string): (int, Status)
      reads this
    {
      (if jobId in progress then progress[jobId] else 0,
       if jobId in status then status[jobId] else Processing)
    }

    /** job_progress[job_id] = value. */
    method SetProgress(jobId: string, value: int)
      modifies this
      ensures progress == old(progress)[jobId := value]
      ensures status == old(status)
      ensures Poll(jobId).0 == value
    {
      progress := progress[jobId := value];
    }

    /** job_status[job_id] = value. */
    method SetStatus(jobId: string, value: Status)
      modifies this
      ensures status == old(status)[jobId := value]
      ensures progress == old(progress)
      ensures Poll(jobId).1 == value
    {
      status := status[jobId := value];
    }

    /** cleanup: both entries of the job are dropped, so the job then reads as
        progress 0 and 'processing'; every other job is untouched. */
    method Cleanup(jobId: string)
      modifies this
      ensures progress == old(progress) - {jobId}
      ensures status == old(status) - {jobId}
      ensures Poll(jobId) == (0, Processing)
      ensures forall other :: other != jobId ==> Poll(other) == old(Poll(other))
    {
      progress := progress - {jobId};
      status := status - {jobId};
    }

    /** upload_files, for the job id uuid4 produced. excel and pdf are the
        names of the uploaded files (None when the form lacks the file; an
        empty name makes the upload count as absent too). excelColumns is what
        read_excel gives: the column names, or None when it raises. The job is
        registered with progress 0 and status 'processing' before anything is
        checked; any rejection turns the status to 'error'. */
    method UploadFiles(jobId: string, excel: Option<string>, pdf: Option<string>,
                       excelColumns: Option<seq<string>>)
      returns (reply: Result<seq<string>, UploadError>)
      modifies this
      ensures reply == UploadOutcome(excel, pdf, excelColumns)
      ensures progress == old(progress)[jobId := 0]
      ensures status == old(status)[jobId := if reply.Success? then Processing else Error]
    {
      progress := progress[jobId := 0];
      status := status[jobId := Processing];
      if !Present(excel) || !Present(pdf) {
        status := status[jobId := Error];
        return Failure(FilesMissing);
      }
      if !(Text.AllowedFile(excel.value, {"xlsx"}) && Text.AllowedFile(pdf.value, {"pdf"})) {
        status := status[jobId := Error];
        return Failure(InvalidFileTypes);
      }
      if excelColumns.None? {
        status := status[jobId := Error];
        return Failure(UnreadableExcel);
      }
      reply := Success(excelColumns.value);
    }
  }

  /** The error answers of upload_files. */
  datatype UploadError = FilesMissing | InvalidFileTypes | UnreadableExcel

  /** A file part counts as given when it is present with a non-empty name. */
  predicate Present(f: Option<string>) {
    f.Some? && f.value != ""
  }

  /** The answer of upload_files: the checks are made in order (both files,
      then both extensions, then the workbook) and the first failing one
      decides the error. */
  function UploadOutcome(excel: Option<string>, pdf: Option<string>, excelColumns: Option<seq<string>>)
    : (r: Result<seq<string>, UploadError>)
    ensures r.Success? <==> Present(excel) && Present(pdf)
                            && Text.AllowedFile(excel.value, {"xlsx"}) && Text.AllowedFile(pdf.value, {"pdf"})
                            && excelColumns.Some?
    ensures r.Success? ==> r.value == excelColumns.value
    ensures r == Failure(FilesMissing) <==> !Present(excel) || !Present(pdf)
  {
    if !Present(excel) || !Present(pdf) then Failure(FilesMissing)
    else if !(Text.AllowedFile(excel.value, {"xlsx"}) && Text.AllowedFile(pdf.value, {"pdf"})) then Failure(InvalidFileTypes)
    else if excelColumns.None? then Failure(UnreadableExcel)
    else Success(excelColumns.value)
  }

  /** A named pair of files is accepted exactly when the workbook's extension is
      "xlsx" and the document's is "pdf", in any letter case, and the workbook
      can be read. */
  lemma UploadByExtensions(excelStem: string, excelExt: string, pdfStem: string, pdfExt: string,
                           columns: seq<string>)
    requires '.' !in excelExt && '.' !in pdfExt
    ensures UploadOutcome(Some(excelStem + "." + excelExt), Some(pdfStem + "." + pdfExt), Some(columns))
            == if Text.Lower(excelExt) == "xlsx" && Text.Lower(pdfExt) == "pdf" then Success(columns)
               else Failure(InvalidFileTypes)
  {
    Text.AllowedFileByExtension(excelStem, excelExt, {"xlsx"});
    Text.AllowedFileByExtension(pdfStem, pdfExt, {"pdf"});
    assert (excelStem + "." + excelExt)[|excelStem|] == '.';
    assert (pdfStem + "." + pdfExt)[|pdfStem|] == '.';
  }
}
