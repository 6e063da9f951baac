/**
 * The PF ECR name-mismatch report of fortune_automation_tools (pf_upload): the
 * rows of the tables on every page but the first and the last, header rows
 * dropped; the name filed in the ECR compared with the name in the UAN
 * repository by their first four, last four and middle two characters after
 * whitespace is collapsed and letters are lower-cased; and the rows whose
 * names do not agree, with both names shown without spaces.
 *
 * Table extraction itself (pdfplumber) is an input: a page gives its table,
 * or None, as rows of cells, a cell being None or text.
 */
module PfNames {
  import opened Wrappers
  import opened Text

  type Cell = Option<string>
  type Table = seq<seq<Cell>>

  /** The four columns kept from a table row: Sl. No, UAN, ECR, UAN Repository. */
  datatype PfRow = PfRow(slNo: Cell, uan: Cell, ecr: Cell, repository: Cell)

  /** A row of the report: the names as displayed. */
  datatype Mismatch = Mismatch(slNo: string, uan: Cell, ecr: string, repository: string)

  // ---------------------------------------------------------------------------
  // Name normalisation

  /** clean_name: nothing for a cell that is not text; otherwise newlines become
      blanks, whitespace runs collapse to one blank, ends are trimmed, letters
      are lower-cased. */
  function CleanName(name: Cell): string {
    match name
    case None => ""
    case Some(s) => Lower(CollapseSpaces(ReplaceChar(s, '\n', ' ')))
  }

  /** clean_name_display: as clean_name, but keeping the letter case. */
  function CleanNameDisplay(name: Cell): string {
    match name
    case None => ""
    case Some(s) => CollapseSpaces(ReplaceChar(s, '\n', ' '))
  }

  /** The shown name: clean_name_display with every ' ' then removed. */
  function DisplayName(name: Cell): string {
    RemoveChar(CleanNameDisplay(name), ' ')
  }

  /** The shown name is the cell's text with all its whitespace removed. */
  lemma DisplayNameSpec(name: Cell)
    ensures NoSpace(DisplayName(name))
    ensures name.Some? ==> DisplayName(name) == RemoveSpaces(name.value)
    ensures name.None? ==> DisplayName(name) == ""
  {
    var d := CleanNameDisplay(name);
    if name.Some? {
      var t := ReplaceChar(name.value, '\n', ' ');
      CollapseSpacesSpec(t);
      RemoveBlankIsRemoveSpaces(d);
      ReplaceSpaceKeepsText(name.value, '\n', ' ');
    }
  }

  /** Cleaning is the displayed form lower-cased: the two differ only in case.
      The displayed form is already clean: cleaning it again changes nothing. */
  lemma CleanIsLowerDisplay(name: Cell)
    ensures CleanName(name) == Lower(CleanNameDisplay(name))
    ensures |CleanName(name)| == |CleanNameDisplay(name)|
    ensures CleanNameDisplay(Some(CleanNameDisplay(name))) == CleanNameDisplay(name)
    ensures CleanName(Some(CleanNameDisplay(name))) == CleanName(name)
  {
    if name.Some? {
      var d := CleanNameDisplay(name);
      CollapseSpacesSpec(ReplaceChar(name.value, '\n', ' '));
      assert forall k :: 0 <= k < |d| ==> d[k] != '\n';
      assert ReplaceChar(d, '\n', ' ') == d;
    }
  }

  /** get_middle_two_chars: of the stripped text, all of it when shorter than two
      characters, else the two characters at len // 2 - 1 and len // 2. */
  function MiddleTwo(s: string): (r: string)
    ensures var t := Strip(s);
            && (|t| < 2 ==> r == t)
            && (|t| >= 2 ==> |r| == 2 && r == t[|t| / 2 - 1 .. |t| / 2 + 1])
  {
    var t := Strip(s);
    if |t| < 2 then t else t[|t| / 2 - 1 .. |t| / 2 + 1]
  }

  /** The two middle characters are centred: as many characters precede them as
      follow them for an even length, one fewer for an odd length. */
  lemma MiddleTwoCentred(s: string)
    requires |Strip(s)| >= 2
    ensures var t := Strip(s);
            var before := |t| / 2 - 1;
            var after := |t| - (|t| / 2 + 1);
            && (|t| % 2 == 0 ==> before == after)
            && (|t| % 2 == 1 ==> before + 1 == after)
  {
  }

  /** Python's s[:4]. */
  function Prefix4(s: string): (r: string)
    ensures |r| == if |s| < 4 then |s| else 4
    ensures r <= s
  {
    if |s| < 4 then s else s[..4]
  }

  /** Python's s[-4:]. */
  function Suffix4(s: string): (r: string)
    ensures |r| == if |s| < 4 then |s| else 4
    ensures r == s[|s| - |r|..]
  {
    if |s| < 4 then s else s[|s| - 4..]
  }

  /** The Highlight column: the cleaned names agree on their first four, last
      four and middle two characters. */
  predicate IsNameMatch(ecr: Cell, repository: Cell) {
    var a := CleanName(ecr);
    var b := CleanName(repository);
    Prefix4(a) == Prefix4(b) && Suffix4(a) == Suffix4(b) && MiddleTwo(a) == MiddleTwo(b)
  }

  /** Names that clean to the same text match; so case, blank runs and line
      breaks never cause a mismatch. Matching is symmetric. */
  lemma NameMatchSpec(a: Cell, b: Cell)
    ensures CleanName(a) == CleanName(b) ==> IsNameMatch(a, b)
    ensures IsNameMatch(a, b) <==> IsNameMatch(b, a)
  {
  }

  /** A name of lower-case letters only. */
  predicate Plain(s: string) {
    s != [] && forall k :: 0 <= k < |s| ==> 'a' <= s[k] <= 'z'
  }

  /** For names of lower-case letters of one length of at least eight, exactly
      the first four, the last four and the middle two characters are compared. */
  lemma PlainNamesMatch(x: string, y: string)
    requires Plain(x) && Plain(y) && |x| == |y| >= 8
    ensures IsNameMatch(Some(x), Some(y)) <==>
              && x[..4] == y[..4]
              && x[|x| - 4..] == y[|y| - 4..]
              && x[|x| / 2 - 1 .. |x| / 2 + 1] == y[|y| / 2 - 1 .. |y| / 2 + 1]
  {
    PlainParts(x);
    PlainParts(y);
  }

  /** The three compared parts of a plain name of at least eight letters. */
  lemma PlainParts(x: string)
    requires Plain(x) && |x| >= 8
    ensures Prefix4(CleanName(Some(x))) == x[..4]
    ensures Suffix4(CleanName(Some(x))) == x[|x| - 4..]
    ensures MiddleTwo(CleanName(Some(x))) == x[|x| / 2 - 1 .. |x| / 2 + 1]
  {
    CleanPlain(x);
    assert !IsSpace(x[0]) && !IsSpace(x[|x| - 1]);
    StripUnpadded(x);
  }

  /** Two different names can still match: in a name of twelve letters, the
      fifth and the eighth are never compared, so changing them goes
      unreported. */
  lemma DifferentNamesMatch(x: string, c: char, d: char)
    requires Plain(x) && |x| == 12 && 'a' <= c <= 'z' && 'a' <= d <= 'z'
    ensures IsNameMatch(Some(x), Some(x[4 := c][7 := d]))
  {
    var y := x[4 := c][7 := d];
    EditedParts(x, c, d);
    PlainNamesMatch(x, y);
  }

  /** Replacing the fifth and the eighth letter of a twelve-letter name keeps
      it plain and keeps the compared parts. */
  lemma EditedParts(x: string, c: char, d: char)
    requires Plain(x) && |x| == 12 && 'a' <= c <= 'z' && 'a' <= d <= 'z'
    ensures var y := x[4 := c][7 := d];
            && Plain(y) && |y| == |x|
            && x[..4] == y[..4]
            && x[|x| - 4..] == y[|y| - 4..]
            && x[|x| / 2 - 1 .. |x| / 2 + 1] == y[|y| / 2 - 1 .. |y| / 2 + 1]
  {
    var y := x[4 := c][7 := d];
    assert |x| - 4 == 8 && |x| / 2 - 1 == 5 && |x| / 2 + 1 == 7;
    forall k | 0 <= k < |y|
      ensures 'a' <= y[k] <= 'z'
    {
      if k != 4 && k != 7 {
        assert y[k] == x[k];
      }
    }
    assert x[..4] == y[..4];
    assert x[8..] == y[8..];
    assert x[5..7] == y[5..7];
  }

  /** A lower-case name of letters only is its own cleaned form. */
  lemma CleanPlain(s: string)
    requires Plain(s)
    ensures CleanName(Some(s)) == s
  {
    assert forall k :: 0 <= k < |s| ==> ReplaceChar(s, '\n', ' ')[k] == s[k];
    assert ReplaceChar(s, '\n', ' ') == s;
    WordsOfWord(s);
    assert CollapseSpaces(s) == s;
    assert forall k :: 0 <= k < |s| ==> Lower(s)[k] == s[k];
  }

  // ---------------------------------------------------------------------------
  // The report

  /** The Sl. No filter: the cell is text and not "None". */
  predicate Numbered(r: PfRow) {
    r.slNo.Some? && r.slNo.value != "None"
  }

  /** A row goes into the report when it is numbered and its names do not match. */
  predicate Reported(r: PfRow) {
    Numbered(r) && !IsNameMatch(r.ecr, r.repository)
  }

  function ReportRow(r: PfRow): Mismatch
    requires Numbered(r)
  {
    Mismatch(r.slNo.value, r.uan, DisplayName(r.ecr), DisplayName(r.repository))
  }

  /** The report rows, in table order. */
  function Mismatches(rows: seq<PfRow>): (ms: seq<Mismatch>)
    ensures |ms| <= |rows|
    ensures forall m :: m in ms <==> exists i :: 0 <= i < |rows| && Reported(rows[i]) && m == ReportRow(rows[i])
  {
    if rows == [] then []
    else
      var rest := Mismatches(rows[1..]);
      assert forall i :: 1 <= i < |rows| ==> rows[i] == rows[1..][i - 1];
      assert forall i :: 0 <= i < |rows| - 1 ==> rows[1..][i] == rows[i + 1];
      (if Reported(rows[0]) then [ReportRow(rows[0])] else []) + rest
  }

  /** The report is built row by row: one row gives its report row exactly
      when it is reported, and the report of two runs of rows is the report of
      each, one after the other, so report rows keep table order and
      repetitions. */
  lemma {:induction false} MismatchesAppend(a: seq<PfRow>, b: seq<PfRow>)
    ensures forall x :: Mismatches([x]) == if Reported(x) then [ReportRow(x)] else []
    ensures Mismatches(a + b) == Mismatches(a) + Mismatches(b)
  {
    forall x: PfRow
      ensures Mismatches([x]) == if Reported(x) then [ReportRow(x)] else []
    {
      assert [x][1..] == [];
    }
    if a == [] {
      assert a + b == b;
    } else {
      var x := if Reported(a[0]) then [ReportRow(a[0])] else [];
      assert (a + b)[1..] == a[1..] + b;
      assert Mismatches(a + b) == x + Mismatches(a[1..] + b);
      MismatchesAppend(a[1..], b);
      AppendAssoc(x, Mismatches(a[1..]), Mismatches(b));
    }
  }

  /** Every reported name is shown without whitespace, and a row whose names
      agree after cleaning is never reported. */
  lemma ReportSpec(rows: seq<PfRow>)
    ensures forall m :: m in Mismatches(rows) ==> NoSpace(m.ecr) && NoSpace(m.repository)
    ensures forall i :: 0 <= i < |rows| && CleanName(rows[i].ecr) == CleanName(rows[i].repository)
                        ==> !Reported(rows[i])
  {
    forall i | 0 <= i < |rows|
      ensures NoSpace(DisplayName(rows[i].ecr)) && NoSpace(DisplayName(rows[i].repository))
    {
      DisplayNameSpec(rows[i].ecr);
      DisplayNameSpec(rows[i].repository);
    }
    forall i | 0 <= i < |rows| && CleanName(rows[i].ecr) == CleanName(rows[i].repository)
      ensures !Reported(rows[i])
    {
      NameMatchSpec(rows[i].ecr, rows[i].repository);
    }
  }

  // ---------------------------------------------------------------------------
  // Table rows

  /** pdf.pages[1:-1]: every page but the first and the last. */
  function InnerPages(pages: seq<Option<Table>>): (r: seq<Option<Table>>)
    ensures |pages| <= 2 ==> r == []
    ensures |pages| > 2 ==> r == pages[1..|pages| - 1]
  {
    if |pages| <= 2 then [] else pages[1..|pages| - 1]
  }

  /** The first four cells of the rows after the first, or None when one of
      them has fewer than four cells (the IndexError that ends the request). */
  function BodyRows(table: Table, n: nat): Option<seq<PfRow>>
    requires 1 <= n <= |table| || n == 0
  {
    if n <= 1 then Some([])
    else match BodyRows(table, n - 1)
         case None => None
         case Some(rows) =>
           var row := table[n - 1];
           if |row| < 4 then None else Some(rows + [PfRow(row[0], row[1], row[2], row[3])])
  }

  /** The rows collected from the first n pages given; a page without a table,
      or with an empty one, adds nothing. */
  function Collected(pages: seq<Option<Table>>, n: nat): Option<seq<PfRow>>
    requires n <= |pages|
  {
    if n == 0 then Some([])
    else match Collected(pages, n - 1)
         case None => None
         case Some(rows) =>
           var t := pages[n - 1];
           if t.None? || t.value == [] then Some(rows)
           else match BodyRows(t.value, |t.value|)
                case None => None
                case Some(more) => Some(rows + more)
  }

  /** The loops of pf_upload that collect the table rows. */
  method ExtractRows(pages: seq<Option<Table>>) returns (data: Option<seq<PfRow>>)
    ensures data == Collected(InnerPages(pages), |InnerPages(pages)|)
  {
    var inner := InnerPages(pages);
    var rows: seq<PfRow> := [];
    for p := 0 to |inner|
      invariant Collected(inner, p) == Some(rows)
    {
      var table := inner[p];
      if table.Some? && table.value != [] {
        var t := table.value;
        var pageRows: seq<PfRow> := [];
        for r := 1 to |t|
          invariant BodyRows(t, r) == Some(pageRows)
        {
          var row := t[r];
          if |row| < 4 {
            assert BodyRows(t, r + 1) == None;
            NoneStaysNone(t, r + 1);
            assert Collected(inner, p + 1) == None;
            CollectedNoneStays(inner, p + 1);
            return None;
          }
          pageRows := pageRows + [PfRow(row[0], row[1], row[2], row[3])];
        }
        rows := rows + pageRows;
      }
    }
    return Some(rows);
  }

  /** Once a short row is met, the page gives no rows. */
  lemma {:induction false} NoneStaysNone(t: Table, n: nat)
    requires 1 <= n <= |t| && BodyRows(t, n) == None
    ensures BodyRows(t, |t|) == None
    decreases |t| - n
  {
    if n < |t| {
      NoneStaysNone(t, n + 1);
    }
  }

  /** Once a page fails, so does the whole collection. */
  lemma {:induction false} CollectedNoneStays(pages: seq<Option<Table>>, n: nat)
    requires n <= |pages| && Collected(pages, n) == None
    ensures Collected(pages, |pages|) == None
    decreases |pages| - n
  {
    if n < |pages| {
      CollectedNoneStays(pages, n + 1);
    }
  }

  datatype PfError = InvalidPdf | MalformedTable | NoMismatchesFound

  /** pf_upload: an upload that is missing or not named *.pdf is refused; a
      table row with fewer than four cells ends in an error; a report without
      rows is the answer 'No mismatches found'. */
  method PfUpload(filename: Option<string>, pages: seq<Option<Table>>) returns (r: Result<seq<Mismatch>, PfError>)
    ensures r == Failure(InvalidPdf) <==> filename.None? || filename.value == "" || !AllowedFile(filename.value, {"pdf"})
    ensures filename.Some? && filename.value != "" && AllowedFile(filename.value, {"pdf"})
            && Collected(InnerPages(pages), |InnerPages(pages)|).Some? ==>
              var ms := Mismatches(Collected(InnerPages(pages), |InnerPages(pages)|).value);
              r == if ms == [] then Failure(NoMismatchesFound) else Success(ms)
    ensures r.Success? ==> r.value != [] && Collected(InnerPages(pages), |InnerPages(pages)|).Some?
                           && r.value == Mismatches(Collected(InnerPages(pages), |InnerPages(pages)|).value)
    ensures r == Failure(NoMismatchesFound) ==>
              Collected(InnerPages(pages), |InnerPages(pages)|).Some?
              && Mismatches(Collected(InnerPages(pages), |InnerPages(pages)|).value) == []
    ensures r == Failure(MalformedTable) <==>
              filename.Some? && filename.value != "" && AllowedFile(filename.value, {"pdf"})
              && Collected(InnerPages(pages), |InnerPages(pages)|).None?
  {
    if filename.None? || filename.value == "" || !AllowedFile(filename.value, {"pdf"}) {
      return Failure(InvalidPdf);
    }
    var data := ExtractRows(pages);
    if data.None? {
      return Failure(MalformedTable);
    }
    var report := Mismatches(data.value);
    if report == [] {
      return Failure(NoMismatchesFound);
    }
    return Success(report);
  }
}
