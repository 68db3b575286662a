# Chatbot retrieval core, modelled in Dafny

This project models the core of a retrieval-augmented chatbot. It covers two
parts of the program:

- **The `/chat` handler** (`app.py`), as one state transition over the
  response cache and the chat log. In order it does the following:
  - The stop command ("stop" in any case) answers `Exiting chat...` and does
    nothing else.
  - A live, non-empty cached answer for the exact message is returned as it is.
  - Otherwise the last `n` turns of the start-up history snapshot are taken
    (`history[-n:]`, where `n` is the `history` parameter and defaults to 5).
  - The retrieval chain is asked, and the citation block is appended to its
    answer. Source documents are grouped by source in first-seen order. Each
    group's page set is sorted ascending and rendered as `k. [source](link),
    Page Number: p1, p2`. The link is `BASE_URL/documents/` followed by the
    percent-encoded source name.
  - The rendered text is appended to the chat log and cached for 300 seconds.
- **Document record construction in `read_and_split_pdfs`**
  (`read_documents.py`). The directory listing is read in two passes:
  - Every page of every `.pdf` file becomes a record on page `i + 1`.
  - Every row of every `.csv` file becomes a record `Question: q\nAnswer: a`
    on page 1.
  - Counters track the PDF files, the CSV files and the characters.

Modules, in dependency order:

| module | file | what it holds |
|---|---|---|
| `Common` | common.dfy | `Option` |
| `Strings` | strings.dfy | `join`, splitting, `str(int)` with its parser, ASCII `lower`, `endswith` |
| `PercentEncoding` | percent_encoding.dfy | UTF-8 and `urllib.parse.quote` with `safe='/'`, with their decoders |
| `PageSort` | page_sort.dfy | `sorted(set_of_pages)` as insertion into a strictly increasing list |
| `Citations` | citations.dfy | the grouping loop, the citation lines and the rendered answer |
| `History` | history.dfy | Python's `xs[start:]` slice and the history window |
| `ResponseCache` | response_cache.dfy | cache key, time-to-live lookup and store |
| `Chat` | chat.dfy | the handler as `Step`, and `Run` over a sequence of requests |
| `Ingest` | ingest.dfy | the record construction, as a functional definition and as a loop method |

The retrieval chain is a function parameter
`(question, history window) -> Answered(answer, source documents) | Raised`.
The clock enters as two readings carried by the request: `now` when the
cache is read, and `answeredAt` when the answer is stored after the chain
has returned. The configured base URL is a
parameter. Loading a PDF and reading a CSV are function parameters of
`Ingest`.

Behaviour a reader may not expect:

- A CSV file that `pd.read_csv` cannot read aborts the whole ingestion. So does
  a missing `question` or `answer` column in a file with at least one row,
  because `row['question']` raises. No row is skipped and no batch continues. `Ingest.CsvFailureIff` states
  exactly when this happens.
- The citation header `**Sources:**` is always emitted, even when no source
  document was retrieved (`Citations.NoDocumentsStillHasHeader`).
- The history window comes from a snapshot read once at start-up
  (`app.py:109`). Turns answered later are written to the log but never reach
  the window (`Chat.LogDoesNotAffectResponse`,
  `Chat.RunKeepsSnapshotAndAppendsLog`).

## Model

| member | source | states |
|---|---|---|
| Chat.Step | app.py:150-195 | The history snapshot never changes. The reply is a stop reply exactly when the message lowers to "stop". Either nothing changes, or the reply is an ordinary answer, the log gains exactly the turn (message, reply) and the cache holds the reply under the message's key, stored at the time the answer was ready, for 300 seconds. A server error writes neither the log nor the cache |
| Chat.IsStop | app.py:153 | The stop test: the message, lowered, equals "stop". `Chat.StopSpellings` characterises the messages it accepts |
| Chat.MessageText | app.py:152 | The JSON `message`, or the empty string when it is absent. Every statement about `Chat.Step` is made about this text, so a missing message is handled like an empty one |
| Chat.CacheHit | app.py:157-158 | A hit is a live cached value under the message's key that is non-empty. A live empty string does not count as a hit, because the handler tests the value's truthiness |
| Chat.WindowSize | app.py:161 | The window size: the `history` parameter when given, otherwise 5. `History.Window` states what the window then holds |
| Chat.StopSpellings | app.py:153 | The stop command is exactly the four letters s, t, o, p, each in either case, with nothing before or after |
| Chat.StopShortCircuits | app.py:153-154 | A stop message is answered with `Exiting chat...` and `stop: true`, the state is unchanged, and the answer is the same whatever the retrieval chain would do |
| Chat.CacheHitReturnsCached | app.py:156-159 | A live, non-empty cached answer under the message's key is returned with `stop: false` and the state is unchanged, independently of the chain |
| Chat.MissAnswersAndRecords | app.py:161-195 | On a miss the chain is asked with the message and the window of the snapshot. Its answer plus the citation block is returned, appended to the log and stored in the cache with timeout 300 |
| Chat.LogDoesNotAffectResponse | app.py:161-193 | The response depends on the start-up snapshot, not on the turns logged since |
| Chat.RenderedAnswerIsNonEmpty | app.py:192 | A rendered answer is at least as long as the citation header, so it is truthy when read back from the cache |
| Chat.RepeatWithinTimeoutHitsCache | app.py:156-194 | Asking the same message again less than 300 seconds after a fresh answer was stored returns that answer and changes nothing, whatever the chain would now say |
| Chat.RepeatAfterTimeoutMisses | app.py:157-194 | Once 300 seconds have passed since the answer was stored, it is no longer a cache hit |
| Chat.RunKeepsSnapshotAndAppendsLog | app.py:150-195 | Over any sequence of requests, each answered by a chain of its own, the snapshot is unchanged, and the log keeps its old turns as a prefix. The log grows by at most one turn per request |
| History.SliceFrom | app.py:161 | Python's `xs[start:]` is a contiguous tail of `xs`. Its length follows Python's clamping for negative and positive starts |
| History.Window | app.py:161 | `history[-n:]` is a tail of the history in original order. For positive `n` it holds the last `min(n, len)` turns. `n = 0` gives the whole history. A negative `n` drops the first `-n` turns |
| History.DefaultWindowBound | app.py:161 | With the default of 5 the window holds at most 5 turns, and all of a history of 5 or fewer |
| ResponseCache.CacheKey | app.py:156 | The key is `chat_response_` followed by the exact message |
| ResponseCache.CacheKeyInjective | app.py:156 | Two messages share a cache key if and only if they are the same text, with no case or whitespace folding |
| ResponseCache.ExpiryIsFinal | app.py:157 | Entries only expire. A value a key reads at some time, it read at every earlier time too, and a key that reads as absent stays absent until it is stored again |
| ResponseCache.Put | app.py:194 | After storing, the key holds the new entry and every other key keeps its entry |
| ResponseCache.PutThenGet | app.py:194 | A stored value reads back before its timeout elapses and reads as absent from then on |
| ResponseCache.PutKeepsOtherKeys | app.py:194 | Storing under one key does not change what any other key reads |
| Citations.PageOf | app.py:179 | A document's page, or page 1 when it has none. `Citations.GroupBySourceCorrect` collects pages through it, and `Citations.ExampleGrouping` shows a page-less document cited on page 1 |
| Citations.FindGroup | app.py:180 | The index found names a group with that source, or is past the end only when no group has that source |
| Citations.AddPage | app.py:182 | Adding a page to a group's list adds exactly that page to its set of pages |
| Citations.AddDocument | app.py:176-182 | One loop iteration. It adds a group exactly when the document's source has none yet, and then only one group. The sources of the existing groups keep their order |
| Citations.GroupBySource | app.py:175-182 | The `sources` dict after the loop, in insertion order. It has at most one group per document. `Citations.GroupBySourceCorrect` states exactly what it holds |
| Citations.AddDocumentMatches | app.py:176-182 | One loop iteration keeps the grouping correct for the documents seen so far |
| Citations.GroupBySourceCorrect | app.py:175-182 | There is one group per distinct source, with no duplicates. Groups are in the order sources first appear. Each group's pages are exactly the pages of that source's documents, with a missing page counted as 1 |
| Citations.CitationLinesCorrect | app.py:183-191 | There is one line per distinct source. Line `i` is numbered `i + 1` and names the i-th source in first-seen order. It lists that source's page set in ascending order without duplicates |
| Citations.PageStrings | app.py:186 | `map(str, sorted_pages)`: one string per page, in order. `Citations.PageListRoundTrip` proves the joined list parses back to the pages |
| Citations.FormatLine | app.py:188-190 | One citation line: the number, the source in brackets, the link `BASE_URL/documents/` plus the quoted source, then `Page Number:` and the page list. `Citations.FormatLineOneLine` and `Citations.PageListRoundTrip` state its properties |
| Citations.CitationLines | app.py:183-191 | The `source_info` list, one line per group. `Citations.CitationLinesCorrect` states which line cites which source and pages |
| Citations.Render | app.py:192 | The returned text begins with the answer followed by the `**Sources:**` header, then the citation lines |
| Citations.NoDocumentsStillHasHeader | app.py:192 | With no source documents the answer is followed by the header and no lines |
| Citations.PageListRoundTrip | app.py:186 | For a non-empty list of pages, the page list `", ".join(map(str, pages))` parses back to the same pages, so distinct non-empty page lists render differently. Every group has at least one page, so this covers every citation line |
| Citations.FormatLineOneLine | app.py:188-190 | A citation line has no line break when the source name and the base URL have none |
| Citations.CitationBlockSplitsIntoLines | app.py:183-192 | When at least one source document was retrieved and no source name or base URL contains a line break, splitting the citation block on line breaks gives back exactly the citation lines, one per distinct source |
| Citations.ExampleGrouping | app.py:175-182 | For distinct sources `a`, `b` and pages `q < p`, documents (`a`, page `p`), (`a`, page `q`), (`b`, no page) group as `a` with pages `p`, `q` in that order and `b` with page 1 |
| Citations.ExampleSort | app.py:185 | Two pages given in descending order come out ascending |
| Citations.ExampleCitations | app.py:183-191 | For the documents of `Citations.ExampleGrouping`, line 1 cites `a` with pages `q`, `p` in ascending order and line 2 cites `b` with page 1 |
| PageSort.Insert | app.py:185 | Inserting into a strictly increasing list keeps it strictly increasing and adds exactly the new element |
| PageSort.Sort | app.py:185 | The sorted pages are strictly increasing and hold exactly the input's pages |
| PageSort.StrictlyIncreasingUnique | app.py:185 | Two strictly increasing lists with the same elements are equal, so the sorted output is determined by the page set |
| PageSort.SortIsCanonical | app.py:185 | Inputs with the same page set sort to the same list, whose length is the number of distinct pages |
| Strings.Join | app.py:186-192 | Python's `sep.join(parts)`, used with `", "` for page lists and `"\n"` for the citation block. A single part is returned as it is. `Strings.SplitJoin` proves that splitting the join gives the parts back |
| Strings.IntToString | app.py:186 | `str(n)` is non-empty, made of digits with at most a leading minus, and starts with a minus exactly for negative `n`. It has no leading zeros: the only rendering that starts with `0` is `0` itself, and a minus is never followed by `0` |
| Strings.IntToStringRoundTrip | app.py:190 | `str(n)` parses back to `n` |
| Strings.SplitJoin | app.py:192 | For at least one part, none containing the separator character `c`: joining with `c` followed by a glue string without `c`, then splitting on `c`, gives as many pieces as parts. The first piece is the first part, and every later piece is the glue followed by its part |
| Strings.PdfAndCsvExclusive | read_documents.py:16-27 | No file name ends with both `.pdf` and `.csv` |
| PercentEncoding.EncodeChar | app.py:188 | A character encodes to 1 to 4 UTF-8 bytes. The count is 1 exactly for code points below 0x80, 2 exactly for 0x80 to 0x7FF, 3 exactly for 0x800 to 0xFFFF and 4 above. A single byte is the code point itself, otherwise a lead byte is followed by continuation bytes |
| PercentEncoding.OverlongRejected | app.py:188 | The decoder refuses an overlong form: the three-byte sequence E0 84 80 for U+0100 decodes to nothing, while the encoder writes U+0100 in its two-byte form C4 80 |
| PercentEncoding.QuoteAccentedLetter | app.py:188 | `é` is encoded as C3 A9 and quoted as `%C3%A9` |
| PercentEncoding.Utf8 | app.py:188 | The UTF-8 encoding `quote` applies before escaping: the characters' encodings, concatenated in order. `PercentEncoding.Utf8RoundTrip` and `PercentEncoding.Utf8Injective` state its properties |
| PercentEncoding.Utf8RoundTrip | app.py:188 | Decoding the UTF-8 encoding of a string gives the string back |
| PercentEncoding.Utf8Injective | app.py:188 | Two strings have the same UTF-8 encoding if and only if they are equal |
| PercentEncoding.Quote | app.py:188 | A quoted name holds only unreserved characters, `/` and `%` escapes, and so no `)`, space or line break that would break the Markdown link |
| PercentEncoding.QuoteRoundTrip | app.py:188 | Percent-decoding a quoted name gives its UTF-8 bytes, which decode back to the name |
| PercentEncoding.QuoteInjective | app.py:188 | Two source names get the same link if and only if they are equal |
| PercentEncoding.QuoteKeepsSafeNames | app.py:188 | A name made only of letters, digits, `_.-~` and `/` is left unchanged |
| Ingest.ReadDocuments | read_documents.py:10-41 | The two-pass loop with its counters computes exactly the records, character total and file counts the pass-by-pass definition gives, or fails exactly when it does |
| Ingest.ReadPdfs | read_documents.py:15-24 | The first loop yields exactly the records of the `.pdf` files' pages in listing order. It counts every `.pdf` file, and its character counter is the total length of those records |
| Ingest.AppendPages | read_documents.py:21-24 | One PDF's pages are appended as records on pages 1, 2, ... in loader order, and the counter grows by their lengths |
| Ingest.ReadCsvs | read_documents.py:26-41 | The second loop fails exactly when some `.csv` file fails. Otherwise it appends exactly the rows' records after the PDF records, counts every `.csv` file and keeps the character counter equal to the total length |
| Ingest.ReadCsvFile | read_documents.py:26-41 | One file of the second loop. A file not ending in `.csv` changes nothing. A `.csv` file fails exactly when it cannot be read, and otherwise its rows' records are appended. The counter stays the total length of the records |
| Ingest.AppendRows | read_documents.py:32-41 | One CSV's rows are appended in order as `Question: q\nAnswer: a` records on page 1, and the counter grows by their lengths |
| Ingest.IsPdf | read_documents.py:16 | `filename.endswith(".pdf")`, case-sensitive. `Strings.PdfAndCsvExclusive` shows no file is taken by both passes |
| Ingest.IsCsv | read_documents.py:27 | `filename.endswith(".csv")`, case-sensitive |
| Ingest.PdfRecords | read_documents.py:15-23 | The first pass: the page records of every `.pdf` file in listing order. `Ingest.PdfPagePlaced`, `Ingest.PdfRecordsTraceable` and `Ingest.PdfRecordsCount` state where each page lands and how many there are |
| Ingest.RowRecords | read_documents.py:32-40 | One CSV file's rows, in order, as records on page 1. `Ingest.AppendRows` and `Ingest.CsvRowPlaced` state their content and position |
| Ingest.CsvRecords | read_documents.py:26-40 | The second pass: the row records of every `.csv` file in listing order, or failure at the first unreadable one. `Ingest.CsvFailureIff`, `Ingest.CsvRecordsTraceable` and `Ingest.CsvRecordsCount` state its properties |
| Ingest.CountPdfs | read_documents.py:16-17 | `total_pdfs`: the number of `.pdf` names in the listing. `Ingest.FileCountsBounded` bounds it with `total_csvs` |
| Ingest.CountCsvs | read_documents.py:27-28 | `total_csvs`: the number of `.csv` names in the listing |
| Ingest.TotalLength | read_documents.py:24-41 | `total_characters`: the sum of the records' text lengths. `Ingest.ReadPdfs` and `Ingest.ReadCsvs` prove the loop counter equals it |
| Ingest.PageRecords | read_documents.py:21-23 | The records of one PDF, one per loaded page, in loader order. `Ingest.AppendPages` and `Ingest.PdfPagePlaced` state their content and page numbers |
| Ingest.RowContent | read_documents.py:35 | A row's text starts with `Question: `, and its length is the lengths of the question and answer plus the 19 characters of the two labels and the line break |
| Ingest.IngestSpec | read_documents.py:10-41 | The pass-by-pass definition of what the function returns before splitting. `Ingest.ReadDocuments` is proved to compute it |
| Ingest.PdfPagePlaced | read_documents.py:21-23 | Page `i` of the PDF at position `m` of the listing is record number (records of the earlier PDFs) + `i`, with that page's text, the file name and page `i + 1`. So each file's pages form one contiguous, 1-based run |
| Ingest.CsvRowPlaced | read_documents.py:32-40 | When ingestion succeeds, every listed `.csv` file was readable. Its row `j` is record number (records of the earlier CSVs) + `j` of the second pass, with the row's rendering, the file name and page 1 |
| Ingest.RecordsTraceable | read_documents.py:15-41 | All PDF records come first, then all CSV records. Each PDF record carries a page number within its file and that page's text. Each CSV record carries page 1 and the rendering of one of its file's rows |
| Ingest.PdfRecordsTraceable | read_documents.py:15-23 | Every record of the first pass is the text of page `page` of its `.pdf` source |
| Ingest.CsvRecordsTraceable | read_documents.py:26-40 | Every record of the second pass renders one row of its `.csv` source, on page 1 |
| Ingest.RecordCount | read_documents.py:21-40 | There is one record per PDF page plus one per CSV row |
| Ingest.PdfRecordsCount | read_documents.py:21-23 | The first pass yields exactly as many records as the PDF files have pages |
| Ingest.CsvRecordsCount | read_documents.py:32-40 | The second pass yields exactly as many records as the CSV files have rows |
| Ingest.FileCountsBounded | read_documents.py:16-28 | The PDF and CSV counters together never exceed the number of files listed |
| Ingest.CsvFailureIff | read_documents.py:26-33 | Ingestion fails if and only if some listed `.csv` file cannot be read, or has rows but lacks a column |
| Ingest.CsvFailureIsFinal | read_documents.py:30 | A CSV failure part-way through the listing fails the whole ingestion |

## Left out

- Flask routing, the JSON and HTTP plumbing, Google OAuth, login and sessions (`app.py:1-147`) are outside the core. So is the `/documents/<filename>` download handler, which only reads a file.
- The retrieval chain (FAISS retriever and the Groq model) is a function parameter. The system prompt and the `messages` list it receives are not modelled, because the chain's use of them cannot be seen.
- The chat log's storage (`database.py`) is a sequence of turns. Timestamps and SQLite are not modelled.
- The text splitter, the embedding model and the FAISS index built after record construction (`read_documents.py:44-70`) are foreign library calls. The offline build script (`offline.py`) is not part of this model.
- `os.listdir` is called twice. The model uses one listing for both passes, and its order is a parameter rather than whatever the file system returns.
- Exceptions from the PDF loader are not modelled. Only a CSV failure is.
- Pandas' rendering of cell values (numbers, `nan`) is not modelled. Cells are given as the strings the f-string produces.
- Chat.IsStop: lowers ASCII letters only, not all of Unicode. No non-ASCII character lowers to an ASCII `s`, `t`, `o` or `p`, so equality with "stop" is unaffected.
- A `message` that is not a string, a missing JSON body, and the `history` parameter's exact `int()` parsing rules are not modelled. The parameter is absent, an integer or unparsable, and unparsable gives a server error.
- The cache is a map with lazy expiry at `now >= storedAt + timeout`. The simple cache's pruning of old entries at its size threshold is left out. So is its rule that a timeout of 0 never expires: the handler always uses 300, and `ResponseCache.PutThenGet` is stated for positive timeouts only.
- Lone surrogates cannot occur in Dafny's `char`, so `quote`'s handling of them is not modelled.
- Page numbers are integers. Python's `sorted` on a mix of page types would raise, and the ingestion code only ever writes integers.
- Concurrency between requests is not modelled. Each request is one atomic step.
- Chat.Step: every source document is taken to carry a `source`. The `KeyError` that `doc.metadata["source"]` raises when it is missing (`app.py:177`) is not modelled.
- Chat.Step: writing the log and storing in the cache happen together. A failing `insert_chat` (`app.py:193`), which raises before `cache.set` runs, is not modelled.
