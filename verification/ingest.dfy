/**
 * Record construction of `read_and_split_pdfs`: from a directory listing,
 * every page of every ".pdf" file and every row of every ".csv" file
 * becomes one document record, with counters of files and characters.
 * Loading a PDF and reading a CSV are parameters; splitting and indexing
 * the records are not part of this model.
 */
module Ingest {
  import opened Common
  import opened Strings

  /** A document record: its text and the metadata `{source, page}` the code assigns. */
  datatype Record = Record(content: string, source: string, page: int)

  /** The `question` and `answer` cells of one CSV row, as f-string interpolation renders them. */
  datatype QaRow = QaRow(question: string, answer: string)

  /**
   * What reading a CSV file gives: its rows, or a failure. A failure is an
   * exception from `pd.read_csv`, or a missing `question` or `answer`
   * column in a file with at least one row (with no rows, no cell is read).
   */
  datatype CsvRead = Rows(rows: seq<QaRow>) | ReadFailed

  /** The counters and records the function returns before splitting. */
  datatype Ingested = Ingested(records: seq<Record>, totalCharacters: nat, totalPdfs: nat, totalCsvs: nat)

  /** The page texts `PyPDFLoader(path).load()` yields for a file name. */
  type PdfLoader = string -> seq<string>

  type CsvReader = string -> CsvRead

  predicate IsPdf(name: string) {
    EndsWith(name, ".pdf")
  }

  predicate IsCsv(name: string) {
    EndsWith(name, ".csv")
  }

  /** Page i (from 0) of a PDF becomes a record on page i + 1; the loader's metadata is discarded. */
  function PageRecords(name: string, pages: seq<string>): (r: seq<Record>)
    ensures |r| == |pages|
  {
    seq(|pages|, i requires 0 <= i < |pages| => Record(pages[i], name, i + 1))
  }

  /** `f"Question: {question}\nAnswer: {answer}"`. */
  function RowContent(row: QaRow): (content: string)
    ensures |content| == |row.question| + |row.answer| + 19
    ensures content[..10] == "Question: "
  {
    "Question: " + row.question + "\nAnswer: " + row.answer
  }

  /** Every CSV row becomes a record on page 1. */
  function RowRecords(name: string, rows: seq<QaRow>): (r: seq<Record>)
    ensures |r| == |rows|
  {
    seq(|rows|, i requires 0 <= i < |rows| => Record(RowContent(rows[i]), name, 1))
  }

  /** The records of the first pass, over the ".pdf" files in listing order. */
  function PdfRecords(listing: seq<string>, loadPdf: PdfLoader): (records: seq<Record>)
    decreases |listing|
  {
    if |listing| == 0 then []
    else
      var name := listing[|listing| - 1];
      PdfRecords(listing[..|listing| - 1], loadPdf) + (if IsPdf(name) then PageRecords(name, loadPdf(name)) else [])
  }

  /** The records of the second pass, over the ".csv" files; `None` once a CSV file cannot be read. */
  function CsvRecords(listing: seq<string>, readCsv: CsvReader): (records: Option<seq<Record>>)
    decreases |listing|
  {
    if |listing| == 0 then Some([])
    else
      var name := listing[|listing| - 1];
      match CsvRecords(listing[..|listing| - 1], readCsv)
      case None => None
      case Some(earlier) =>
        if !IsCsv(name) then Some(earlier)
        else match readCsv(name)
          case ReadFailed => None
          case Rows(rows) => Some(earlier + RowRecords(name, rows))
  }

  function CountPdfs(listing: seq<string>): (count: nat)
    decreases |listing|
  {
    if |listing| == 0 then 0
    else CountPdfs(listing[..|listing| - 1]) + (if IsPdf(listing[|listing| - 1]) then 1 else 0)
  }

  function CountCsvs(listing: seq<string>): (count: nat)
    decreases |listing|
  {
    if |listing| == 0 then 0
    else CountCsvs(listing[..|listing| - 1]) + (if IsCsv(listing[|listing| - 1]) then 1 else 0)
  }

  /** The number of characters over all records: `sum(len(d.page_content))`. */
  function TotalLength(records: seq<Record>): (total: nat)
    decreases |records|
  {
    if |records| == 0 then 0
    else TotalLength(records[..|records| - 1]) + |records[|records| - 1].content|
  }

  /** What the function computes, stated pass by pass; `None` stands for the exception a bad CSV raises. */
  function IngestSpec(listing: seq<string>, loadPdf: PdfLoader, readCsv: CsvReader): (r: Option<Ingested>) {
    match CsvRecords(listing, readCsv)
    case None => None
    case Some(csv) =>
      var records := PdfRecords(listing, loadPdf) + csv;
      Some(Ingested(records, TotalLength(records), CountPdfs(listing), CountCsvs(listing)))
  }

  lemma TotalLengthSnoc(records: seq<Record>, r: Record)
    ensures TotalLength(records + [r]) == TotalLength(records) + |r.content|
  {
    assert (records + [r])[..|records|] == records;
  }

  lemma PageRecordsSnoc(name: string, pages: seq<string>, j: nat)
    requires j < |pages|
    ensures PageRecords(name, pages[..j + 1]) == PageRecords(name, pages[..j]) + [Record(pages[j], name, j + 1)]
  {
  }

  lemma RowRecordsSnoc(name: string, rows: seq<QaRow>, j: nat)
    requires j < |rows|
    ensures RowRecords(name, rows[..j + 1]) == RowRecords(name, rows[..j]) + [Record(RowContent(rows[j]), name, 1)]
  {
  }

  /** Once a CSV file has failed, the whole ingestion has failed. */
  lemma {:induction false} CsvFailureIsFinal(listing: seq<string>, readCsv: CsvReader, k: nat)
    requires k <= |listing|
    requires CsvRecords(listing[..k], readCsv).None?
    ensures CsvRecords(listing, readCsv).None?
    decreases |listing| - k
  {
    if k < |listing| {
      assert listing[..k + 1][..k] == listing[..k];
      CsvFailureIsFinal(listing, readCsv, k + 1);
    } else {
      assert listing[..k] == listing;
    }
  }

  /** The inner loop of the first pass: one record per page of one PDF, with its characters counted. */
  method AppendPages(records: seq<Record>, totalCharacters: nat, name: string, pages: seq<string>)
    returns (records': seq<Record>, totalCharacters': nat)
    requires totalCharacters == TotalLength(records)
    ensures records' == records + PageRecords(name, pages)
    ensures totalCharacters' == TotalLength(records')
  {
    records', totalCharacters' := records, totalCharacters;
    var j := 0;
    while j < |pages|
      invariant 0 <= j <= |pages|
      invariant records' == records + PageRecords(name, pages[..j])
      invariant totalCharacters' == TotalLength(records')
    {
      TotalLengthSnoc(records', Record(pages[j], name, j + 1));
      PageRecordsSnoc(name, pages, j);
      records' := records' + [Record(pages[j], name, j + 1)];
      totalCharacters' := totalCharacters' + |pages[j]|;
      j := j + 1;
    }
    assert pages[..j] == pages;
  }

  /** The inner loop of the second pass: one record per row of one CSV, with its characters counted. */
  method AppendRows(records: seq<Record>, totalCharacters: nat, name: string, rows: seq<QaRow>)
    returns (records': seq<Record>, totalCharacters': nat)
    requires totalCharacters == TotalLength(records)
    ensures records' == records + RowRecords(name, rows)
    ensures totalCharacters' == TotalLength(records')
  {
    records', totalCharacters' := records, totalCharacters;
    var j := 0;
    while j < |rows|
      invariant 0 <= j <= |rows|
      invariant records' == records + RowRecords(name, rows[..j])
      invariant totalCharacters' == TotalLength(records')
    {
      var content := RowContent(rows[j]);
      TotalLengthSnoc(records', Record(content, name, 1));
      RowRecordsSnoc(name, rows, j);
      records' := records' + [Record(content, name, 1)];
      totalCharacters' := totalCharacters' + |content|;
      j := j + 1;
    }
    assert rows[..j] == rows;
  }

  /** One more file of the listing, as the second pass sees it. */
  lemma CsvRecordsExtend(listing: seq<string>, readCsv: CsvReader, i: nat)
    requires i < |listing|
    requires CsvRecords(listing[..i], readCsv).Some?
    ensures !IsCsv(listing[i]) ==> CsvRecords(listing[..i + 1], readCsv) == CsvRecords(listing[..i], readCsv)
    ensures IsCsv(listing[i]) && readCsv(listing[i]).Rows? ==>
      CsvRecords(listing[..i + 1], readCsv)
      == Some(CsvRecords(listing[..i], readCsv).value + RowRecords(listing[i], readCsv(listing[i]).rows))
    ensures IsCsv(listing[i]) && readCsv(listing[i]).ReadFailed? ==> CsvRecords(listing[..i + 1], readCsv).None?
    ensures CountCsvs(listing[..i + 1]) == CountCsvs(listing[..i]) + (if IsCsv(listing[i]) then 1 else 0)
  {
    assert listing[..i + 1][..i] == listing[..i];
  }

  /** The first pass over the listing: the ".pdf" files and their pages, with no CSV counted yet. */
  method ReadPdfs(listing: seq<string>, loadPdf: PdfLoader) returns (first: Ingested)
    ensures first.records == PdfRecords(listing, loadPdf)
    ensures first.totalCharacters == TotalLength(first.records)
    ensures first.totalPdfs == CountPdfs(listing)
    ensures first.totalCsvs == 0
  {
    var records: seq<Record> := [];
    var totalCharacters: nat := 0;
    var totalPdfs: nat := 0;
    var i := 0;
    while i < |listing|
      invariant 0 <= i <= |listing|
      invariant records == PdfRecords(listing[..i], loadPdf)
      invariant totalCharacters == TotalLength(records)
      invariant totalPdfs == CountPdfs(listing[..i])
    {
      var name := listing[i];
      assert listing[..i + 1][..i] == listing[..i];
      if IsPdf(name) {
        totalPdfs := totalPdfs + 1;
        records, totalCharacters := AppendPages(records, totalCharacters, name, loadPdf(name));
      }
      i := i + 1;
    }
    assert listing[..i] == listing;
    return Ingested(records, totalCharacters, totalPdfs, 0);
  }

  /**
   * The second pass over the listing: the ".csv" files and their rows,
   * appended to the records of the first pass and counted on top of its
   * counters; `None` when a file fails.
   */
  method ReadCsvs(listing: seq<string>, readCsv: CsvReader, first: Ingested) returns (result: Option<Ingested>)
    requires first.totalCharacters == TotalLength(first.records)
    ensures result.None? <==> CsvRecords(listing, readCsv).None?
    ensures result.Some? ==>
      && result.value.records == first.records + CsvRecords(listing, readCsv).value
      && result.value.totalCharacters == TotalLength(result.value.records)
      && result.value.totalPdfs == first.totalPdfs
      && result.value.totalCsvs == first.totalCsvs + CountCsvs(listing)
  {
    var records, totalCharacters, totalCsvs := first.records, first.totalCharacters, first.totalCsvs;
    ghost var added: seq<Record> := [];
    var i := 0;
    while i < |listing|
      invariant 0 <= i <= |listing|
      invariant CsvRecords(listing[..i], readCsv) == Some(added)
      invariant records == first.records + added
      invariant totalCharacters == TotalLength(records)
      invariant totalCsvs == first.totalCsvs + CountCsvs(listing[..i])
    {
      CsvRecordsExtend(listing, readCsv, i);
      var ok;
      ok, records, totalCharacters := ReadCsvFile(records, totalCharacters, listing[i], readCsv);
      if !ok {
        CsvFailureIsFinal(listing, readCsv, i + 1);
        return None;
      }
      if IsCsv(listing[i]) {
        added := added + RowRecords(listing[i], readCsv(listing[i]).rows);
        totalCsvs := totalCsvs + 1;
      }
      i := i + 1;
    }
    assert listing[..i] == listing;
    return Some(Ingested(records, totalCharacters, first.totalPdfs, totalCsvs));
  }

  /** One iteration of the second pass: a ".csv" file's rows are appended, any other file is passed over. */
  method ReadCsvFile(records: seq<Record>, totalCharacters: nat, name: string, readCsv: CsvReader)
    returns (ok: bool, records': seq<Record>, totalCharacters': nat)
    requires totalCharacters == TotalLength(records)
    ensures ok <==> !(IsCsv(name) && readCsv(name).ReadFailed?)
    ensures ok && IsCsv(name) ==> records' == records + RowRecords(name, readCsv(name).rows)
    ensures ok && !IsCsv(name) ==> records' == records
    ensures totalCharacters' == TotalLength(records')
  {
    ok, records', totalCharacters' := true, records, totalCharacters;
    if IsCsv(name) {
      match readCsv(name)
      case ReadFailed =>
        ok := false;
      case Rows(rows) =>
        records', totalCharacters' := AppendRows(records, totalCharacters, name, rows);
    }
  }

  /**
   * `read_and_split_pdfs` up to the splitter: two passes over the same
   * listing, the first for ".pdf" files and their pages, the second for
   * ".csv" files and their rows, with running counters.
   */
  method ReadDocuments(listing: seq<string>, loadPdf: PdfLoader, readCsv: CsvReader) returns (result: Option<Ingested>)
    ensures result == IngestSpec(listing, loadPdf, readCsv)
  {
    var first := ReadPdfs(listing, loadPdf);
    result := ReadCsvs(listing, readCsv, first);
  }

  // Properties of the records

  /** A record that comes from page `page` of its PDF source, as the loader returned it. */
  predicate FromPdf(r: Record, loadPdf: PdfLoader) {
    IsPdf(r.source) && 1 <= r.page <= |loadPdf(r.source)| && r.content == loadPdf(r.source)[r.page - 1]
  }

  /** A record that comes from some row of its CSV source, on page 1. */
  predicate FromCsv(r: Record, readCsv: CsvReader) {
    IsCsv(r.source) && r.page == 1 && readCsv(r.source).Rows? &&
    exists j :: 0 <= j < |readCsv(r.source).rows| && r.content == RowContent(readCsv(r.source).rows[j])
  }

  lemma {:induction false} PdfRecordsTraceable(listing: seq<string>, loadPdf: PdfLoader)
    ensures forall k :: 0 <= k < |PdfRecords(listing, loadPdf)| ==> FromPdf(PdfRecords(listing, loadPdf)[k], loadPdf)
    decreases |listing|
  {
    if |listing| > 0 {
      var name := listing[|listing| - 1];
      var earlier := listing[..|listing| - 1];
      PdfRecordsTraceable(earlier, loadPdf);
      if IsPdf(name) {
        var block := PageRecords(name, loadPdf(name));
        forall k | 0 <= k < |block| ensures FromPdf(block[k], loadPdf) {
        }
      }
    }
  }

  lemma {:induction false} CsvRecordsTraceable(listing: seq<string>, readCsv: CsvReader)
    requires CsvRecords(listing, readCsv).Some?
    ensures forall k :: 0 <= k < |CsvRecords(listing, readCsv).value| ==> FromCsv(CsvRecords(listing, readCsv).value[k], readCsv)
    decreases |listing|
  {
    if |listing| > 0 {
      var name := listing[|listing| - 1];
      var earlier := listing[..|listing| - 1];
      CsvRecordsTraceable(earlier, readCsv);
      if IsCsv(name) && readCsv(name).Rows? {
        var rows := readCsv(name).rows;
        var block := RowRecords(name, rows);
        forall k | 0 <= k < |block| ensures FromCsv(block[k], readCsv) {
          assert block[k].content == RowContent(rows[k]);
        }
      }
    }
  }

  /**
   * Every record traces back to its input: a record from a PDF carries a
   * page number within the file and that page's text; a record from a CSV
   * carries page 1 and the rendering of one of the file's rows. All PDF
   * records come first, then all CSV records.
   */
  lemma RecordsTraceable(listing: seq<string>, loadPdf: PdfLoader, readCsv: CsvReader, ing: Ingested)
    requires IngestSpec(listing, loadPdf, readCsv) == Some(ing)
    ensures var split := |PdfRecords(listing, loadPdf)|;
      split <= |ing.records| &&
      (forall k :: 0 <= k < split ==> FromPdf(ing.records[k], loadPdf)) &&
      (forall k :: split <= k < |ing.records| ==> FromCsv(ing.records[k], readCsv))
  {
    var pdf := PdfRecords(listing, loadPdf);
    var csv := CsvRecords(listing, readCsv).value;
    assert ing.records == pdf + csv;
    PdfRecordsTraceable(listing, loadPdf);
    CsvRecordsTraceable(listing, readCsv);
    forall k | |pdf| <= k < |ing.records| ensures FromCsv(ing.records[k], readCsv) {
      assert ing.records[k] == csv[k - |pdf|];
    }
  }

  /** The number of pages over the ".pdf" files of a listing. */
  function PageCount(listing: seq<string>, loadPdf: PdfLoader): (count: nat)
    decreases |listing|
  {
    if |listing| == 0 then 0
    else
      var name := listing[|listing| - 1];
      PageCount(listing[..|listing| - 1], loadPdf) + (if IsPdf(name) then |loadPdf(name)| else 0)
  }

  /** The number of rows over the ".csv" files of a listing, counting only files that can be read. */
  function RowCount(listing: seq<string>, readCsv: CsvReader): (count: nat)
    decreases |listing|
  {
    if |listing| == 0 then 0
    else
      var name := listing[|listing| - 1];
      RowCount(listing[..|listing| - 1], readCsv) +
      (if IsCsv(name) && readCsv(name).Rows? then |readCsv(name).rows| else 0)
  }

  lemma {:induction false} PdfRecordsCount(listing: seq<string>, loadPdf: PdfLoader)
    ensures |PdfRecords(listing, loadPdf)| == PageCount(listing, loadPdf)
    decreases |listing|
  {
    if |listing| > 0 {
      PdfRecordsCount(listing[..|listing| - 1], loadPdf);
    }
  }

  lemma {:induction false} CsvRecordsCount(listing: seq<string>, readCsv: CsvReader)
    requires CsvRecords(listing, readCsv).Some?
    ensures |CsvRecords(listing, readCsv).value| == RowCount(listing, readCsv)
    decreases |listing|
  {
    if |listing| > 0 {
      CsvRecordsCount(listing[..|listing| - 1], readCsv);
    }
  }

  /** One record per PDF page plus one per CSV row: nothing is dropped or duplicated. */
  lemma RecordCount(listing: seq<string>, loadPdf: PdfLoader, readCsv: CsvReader, ing: Ingested)
    requires IngestSpec(listing, loadPdf, readCsv) == Some(ing)
    ensures |ing.records| == PageCount(listing, loadPdf) + RowCount(listing, readCsv)
  {
    PdfRecordsCount(listing, loadPdf);
    CsvRecordsCount(listing, readCsv);
  }

  /** No file is counted as both a PDF and a CSV, so the two counters together never exceed the listing. */
  lemma {:induction false} FileCountsBounded(listing: seq<string>)
    ensures CountPdfs(listing) + CountCsvs(listing) <= |listing|
    decreases |listing|
  {
    if |listing| > 0 {
      FileCountsBounded(listing[..|listing| - 1]);
      PdfAndCsvExclusive(listing[|listing| - 1]);
    }
  }

  /** Ingestion fails exactly when some ".csv" file in the listing cannot be read. */
  lemma {:induction false} CsvFailureIff(listing: seq<string>, readCsv: CsvReader)
    ensures CsvRecords(listing, readCsv).None? <==>
      exists k :: 0 <= k < |listing| && IsCsv(listing[k]) && readCsv(listing[k]).ReadFailed?
    decreases |listing|
  {
    if |listing| > 0 {
      var n := |listing| - 1;
      var earlier := listing[..n];
      CsvFailureIff(earlier, readCsv);
      if exists k :: 0 <= k < n && IsCsv(earlier[k]) && readCsv(earlier[k]).ReadFailed? {
        var k :| 0 <= k < n && IsCsv(earlier[k]) && readCsv(earlier[k]).ReadFailed?;
        assert listing[k] == earlier[k];
      } else {
        forall k | 0 <= k < n ensures !(IsCsv(listing[k]) && readCsv(listing[k]).ReadFailed?) {
          assert listing[k] == earlier[k];
        }
      }
    }
  }

  /** The records of the first files of the listing are a prefix of the first pass's records. */
  lemma {:induction false} PdfRecordsPrefix(listing: seq<string>, loadPdf: PdfLoader, k: nat)
    requires k <= |listing|
    ensures |PdfRecords(listing[..k], loadPdf)| <= |PdfRecords(listing, loadPdf)|
    ensures PdfRecords(listing, loadPdf)[..|PdfRecords(listing[..k], loadPdf)|] == PdfRecords(listing[..k], loadPdf)
    decreases |listing|
  {
    if k == |listing| {
      assert listing[..k] == listing;
    } else {
      var earlier := listing[..|listing| - 1];
      assert earlier[..k] == listing[..k];
      PdfRecordsPrefix(earlier, loadPdf, k);
    }
  }

  /**
   * Page i (from 0) of the PDF at position m of the listing is the record
   * right after the records of the files before it, plus i: each file's
   * pages form one contiguous run numbered 1, 2, ... in loader order.
   */
  lemma PdfPagePlaced(listing: seq<string>, loadPdf: PdfLoader, m: nat, i: nat)
    requires m < |listing| && IsPdf(listing[m])
    requires i < |loadPdf(listing[m])|
    ensures var at := |PdfRecords(listing[..m], loadPdf)| + i;
      at < |PdfRecords(listing, loadPdf)| &&
      PdfRecords(listing, loadPdf)[at] == Record(loadPdf(listing[m])[i], listing[m], i + 1)
  {
    var name := listing[m];
    assert listing[..m + 1][..m] == listing[..m];
    assert PdfRecords(listing[..m + 1], loadPdf) == PdfRecords(listing[..m], loadPdf) + PageRecords(name, loadPdf(name));
    PdfRecordsPrefix(listing, loadPdf, m + 1);
  }

  /** The records of the first files of the listing are a prefix of the second pass's records. */
  lemma {:induction false} CsvRecordsPrefix(listing: seq<string>, readCsv: CsvReader, k: nat)
    requires k <= |listing|
    requires CsvRecords(listing, readCsv).Some?
    ensures CsvRecords(listing[..k], readCsv).Some?
    ensures |CsvRecords(listing[..k], readCsv).value| <= |CsvRecords(listing, readCsv).value|
    ensures CsvRecords(listing, readCsv).value[..|CsvRecords(listing[..k], readCsv).value|] == CsvRecords(listing[..k], readCsv).value
    decreases |listing|
  {
    if k == |listing| {
      assert listing[..k] == listing;
    } else {
      var earlier := listing[..|listing| - 1];
      assert earlier[..k] == listing[..k];
      CsvRecordsPrefix(earlier, readCsv, k);
    }
  }

  /** One more file of the listing extends a successful second pass by that file's rows, if it is a CSV. */
  lemma CsvRecordsStep(listing: seq<string>, readCsv: CsvReader, m: nat)
    requires m < |listing|
    requires CsvRecords(listing[..m + 1], readCsv).Some?
    ensures CsvRecords(listing[..m], readCsv).Some?
    ensures IsCsv(listing[m]) ==> readCsv(listing[m]).Rows?
    ensures CsvRecords(listing[..m + 1], readCsv).value
         == CsvRecords(listing[..m], readCsv).value
            + (if IsCsv(listing[m]) then RowRecords(listing[m], readCsv(listing[m]).rows) else [])
  {
    assert listing[..m + 1][..m] == listing[..m];
  }

  /**
   * Row j of the CSV at position m of the listing, when ingestion succeeds,
   * is the record right after the records of the CSV files before it, plus
   * j, with the row's rendering as content and page 1.
   */
  lemma CsvRowPlaced(listing: seq<string>, readCsv: CsvReader, m: nat, j: nat)
    requires CsvRecords(listing, readCsv).Some?
    requires m < |listing| && IsCsv(listing[m])
    ensures readCsv(listing[m]).Rows?
    ensures CsvRecords(listing[..m], readCsv).Some?
    ensures j < |readCsv(listing[m]).rows| ==>
      var at := |CsvRecords(listing[..m], readCsv).value| + j;
      at < |CsvRecords(listing, readCsv).value| &&
      CsvRecords(listing, readCsv).value[at] == Record(RowContent(readCsv(listing[m]).rows[j]), listing[m], 1)
  {
    CsvRecordsPrefix(listing, readCsv, m + 1);
    CsvRecordsStep(listing, readCsv, m);
    if j < |readCsv(listing[m]).rows| {
      var before := CsvRecords(listing[..m], readCsv).value;
      var block := RowRecords(listing[m], readCsv(listing[m]).rows);
      var upTo := CsvRecords(listing[..m + 1], readCsv).value;
      var all := CsvRecords(listing, readCsv).value;
      var at := |before| + j;
      assert upTo == before + block;
      assert at < |upTo| <= |all|;
      assert all[at] == upTo[at] == block[j];
    }
  }
}
