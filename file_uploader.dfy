/**
 * The decision logic of the FileUploader component: which file is accepted,
 * which parsed rows become question/answer pairs, and which error message
 * wins when several things are wrong.
 *
 * The CSV parser is a collaborator, given here as a function from the
 * file's text to what it reports (the rows it read and its error
 * messages); reading the file is I/O, so its text is an input.
 */
module FileUploader {
  import opened Wrappers
  import opened JsString

  /** A question/answer pair, as handed to `onCardsLoaded`. */
  datatype QA = QA(question: string, answer: string)

  /** What the CSV parser reports: its rows of fields and the messages of the errors it met. */
  datatype ParseReport = ParseReport(data: seq<seq<string>>, errors: seq<string>)

  /** Why an upload produced no cards. */
  datatype UploadError =
    | NotCsv
    | EmptyFile
    | ParseFailed(parserMessage: string)
    | NoValidData

  /** The text shown to the user for each error. */
  function ErrorMessage(e: UploadError): string {
    match e
    case NotCsv => "Please upload a CSV file"
    case EmptyFile => "The CSV file is empty"
    case ParseFailed(m) => "Error parsing CSV file: " + m
    case NoValidData => "No valid data found in the CSV file"
  }

  /** The type check: a CSV MIME type or a `.csv` name is enough. */
  predicate IsCsvFile(name: string, mimeType: string) {
    mimeType == "text/csv" || EndsWith(name, ".csv")
  }

  /** A row is kept when it has two fields and both are non-empty strings (before trimming). */
  predicate IsValidRow(row: seq<string>) {
    |row| >= 2 && row[0] != "" && row[1] != ""
  }

  function RowToPair(row: seq<string>): QA
    requires |row| >= 2
  {
    QA(Trim(row[0]), Trim(row[1]))
  }

  /** What one row contributes: its pair when it is valid, nothing otherwise. */
  function RowPairs(row: seq<string>): (pairs: seq<QA>)
    ensures |pairs| <= 1
  {
    if IsValidRow(row) then [RowToPair(row)] else []
  }

  /** The `filter` then `map` over the parsed rows. */
  function PairsFromRows(rows: seq<seq<string>>): (pairs: seq<QA>)
    ensures |pairs| <= |rows|
  {
    if rows == [] then [] else RowPairs(rows[0]) + PairsFromRows(rows[1..])
  }

  /** Reading order is kept: the pairs of two blocks of rows are the pairs of each, in order. */
  lemma {:induction false} PairsFromRowsAppend(a: seq<seq<string>>, b: seq<seq<string>>)
    ensures PairsFromRows(a + b) == PairsFromRows(a) + PairsFromRows(b)
    decreases |a|
  {
    if a == [] {
      assert a + b == b;
    } else {
      assert (a + b)[0] == a[0];
      assert (a + b)[1..] == a[1..] + b;
      PairsFromRowsAppend(a[1..], b);
      calc {
        PairsFromRows(a + b);
        RowPairs(a[0]) + PairsFromRows(a[1..] + b);
        RowPairs(a[0]) + (PairsFromRows(a[1..]) + PairsFromRows(b));
        (RowPairs(a[0]) + PairsFromRows(a[1..])) + PairsFromRows(b);
      }
    }
  }

  /** Every pair comes from a valid row, its fields trimmed; extra fields play no part. */
  lemma {:induction false} PairComesFromValidRow(rows: seq<seq<string>>, k: nat) returns (i: nat)
    requires k < |PairsFromRows(rows)|
    ensures i < |rows| && IsValidRow(rows[i])
    ensures PairsFromRows(rows)[k] == QA(Trim(rows[i][0]), Trim(rows[i][1]))
    decreases |rows|
  {
    var head, tail := RowPairs(rows[0]), PairsFromRows(rows[1..]);
    assert PairsFromRows(rows) == head + tail;
    if k < |head| {
      i := 0;
    } else {
      var j := PairComesFromValidRow(rows[1..], k - |head|);
      assert PairsFromRows(rows)[k] == tail[k - |head|];
      i := j + 1;
    }
  }

  /** Every valid row yields a pair. */
  lemma {:induction false} ValidRowYieldsPair(rows: seq<seq<string>>, i: nat)
    requires i < |rows| && IsValidRow(rows[i])
    ensures QA(Trim(rows[i][0]), Trim(rows[i][1])) in PairsFromRows(rows)
    decreases |rows|
  {
    if i > 0 {
      ValidRowYieldsPair(rows[1..], i - 1);
    }
  }

  /** No question and no answer keeps whitespace at either end; they may be empty. */
  lemma PairsAreTrimmed(rows: seq<seq<string>>, k: nat)
    requires k < |PairsFromRows(rows)|
    ensures Trimmed(PairsFromRows(rows)[k].question) && Trimmed(PairsFromRows(rows)[k].answer)
  {
    var i := PairComesFromValidRow(rows, k);
    TrimSpec(rows[i][0]);
    TrimSpec(rows[i][1]);
  }

  /** No pair at all exactly when no row is valid. */
  lemma NoPairsIffNoValidRow(rows: seq<seq<string>>)
    ensures PairsFromRows(rows) == [] <==> forall i | 0 <= i < |rows| :: !IsValidRow(rows[i])
  {
    if PairsFromRows(rows) == [] {
      forall i | 0 <= i < |rows| ensures !IsValidRow(rows[i]) {
        if IsValidRow(rows[i]) {
          ValidRowYieldsPair(rows, i);
        }
      }
    } else {
      var _ := PairComesFromValidRow(rows, 0);
    }
  }

  /** A whitespace-only field passes the filter and becomes the empty string. */
  lemma WhitespaceFieldBecomesEmpty(question: string, answer: string)
    requires question != [] && AllWhitespace(question) && answer != []
    ensures PairsFromRows([[question, answer]]) == [QA("", Trim(answer))]
  {
    TrimSpec(question);
  }

  /**
   * `handleFileUpload` from the chosen file to the cards handed on, or the
   * error shown. The checks run in this order: file type, empty text,
   * parser errors, no valid row.
   */
  function HandleUpload(name: string, mimeType: string, content: string,
                        parse: string -> ParseReport): (r: Result<seq<QA>, UploadError>)
    ensures r == Failure(NotCsv) <==> !IsCsvFile(name, mimeType)
    ensures r == Failure(EmptyFile) <==> IsCsvFile(name, mimeType) && AllWhitespace(content)
    ensures IsCsvFile(name, mimeType) && !AllWhitespace(content) && parse(content).errors != []
            ==> r == Failure(ParseFailed(parse(content).errors[0]))
    ensures r == Failure(NoValidData) <==>
            IsCsvFile(name, mimeType) && !AllWhitespace(content) && parse(content).errors == [] &&
            forall i | 0 <= i < |parse(content).data| :: !IsValidRow(parse(content).data[i])
    ensures r.Success? <==>
            IsCsvFile(name, mimeType) && !AllWhitespace(content) && parse(content).errors == [] &&
            PairsFromRows(parse(content).data) != []
    ensures r.Success? ==> r.value != [] && r.value == PairsFromRows(parse(content).data)
  {
    TrimSpec(content);
    if !IsCsvFile(name, mimeType) then Failure(NotCsv)
    else if Trim(content) == "" then Failure(EmptyFile)
    else
      var report := parse(content);
      if |report.errors| > 0 then Failure(ParseFailed(report.errors[0]))
      else
        var pairs := PairsFromRows(report.data);
        NoPairsIffNoValidRow(report.data);
        if |pairs| == 0 then Failure(NoValidData) else Success(pairs)
  }

  /** A rejected file type is reported before its text is looked at or parsed. */
  lemma {:induction false} TypeCheckComesFirst(name: string, mimeType: string,
                                               content1: string, content2: string,
                                               parse1: string -> ParseReport, parse2: string -> ParseReport)
    requires !IsCsvFile(name, mimeType)
    ensures HandleUpload(name, mimeType, content1, parse1) == HandleUpload(name, mimeType, content2, parse2)
  {
  }

  /** Empty text is reported before anything is parsed. */
  lemma {:induction false} EmptyCheckComesBeforeParsing(name: string, mimeType: string, content: string,
                                                        parse1: string -> ParseReport, parse2: string -> ParseReport)
    requires AllWhitespace(content)
    ensures HandleUpload(name, mimeType, content, parse1) == HandleUpload(name, mimeType, content, parse2)
  {
  }

  /** A file whose MIME type is not CSV still passes the type check on its `.csv` name. */
  lemma CsvNameIsEnough(name: string, mimeType: string, content: string, parse: string -> ParseReport)
    requires EndsWith(name, ".csv")
    ensures HandleUpload(name, mimeType, content, parse) != Failure(NotCsv)
  {
  }

  /** A valid row whose two fields carry no outer whitespace gives exactly those fields. */
  lemma KeptAsIs(row: seq<string>)
    requires IsValidRow(row) && Trimmed(row[0]) && Trimmed(row[1])
    ensures RowPairs(row) == [QA(row[0], row[1])]
  {
    TrimSpec(row[0]);
    TrimSpec(row[1]);
  }

  /** Two well-formed lines of text give two pairs, in reading order. */
  lemma TwoRowExample()
    ensures HandleUpload("deck.csv", "text/csv", "2+2=?,4\nCapital of France?,Paris\n",
                         _ => ParseReport([["2+2=?", "4"], ["Capital of France?", "Paris"]], []))
         == Success([QA("2+2=?", "4"), QA("Capital of France?", "Paris")])
  {
    var row0, row1 := ["2+2=?", "4"], ["Capital of France?", "Paris"];
    KeptAsIs(row0);
    KeptAsIs(row1);
    assert [row0, row1][1..] == [row1];
    assert [row1][1..] == [];
    assert PairsFromRows([row0, row1]) == [QA("2+2=?", "4"), QA("Capital of France?", "Paris")];
    var content := "2+2=?,4\nCapital of France?,Paris\n";
    TrimSpec(content);
    assert !IsWhitespace(content[0]);
    assert Trim(content) != "";
  }

  /** A file of one-column rows has no valid data, and the user is told so. */
  lemma OneColumnExample()
    ensures HandleUpload("one.csv", "", "onlyonecolumn\n", _ => ParseReport([["onlyonecolumn"]], []))
         == Failure(NoValidData)
    ensures ErrorMessage(HandleUpload("one.csv", "", "onlyonecolumn\n", _ => ParseReport([["onlyonecolumn"]], [])).error)
         == "No valid data found in the CSV file"
  {
    assert !IsWhitespace("onlyonecolumn\n"[0]);
  }
}
