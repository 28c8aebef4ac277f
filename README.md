# Document ingestion core of the bjss search app

This project models the ingestion path of a small Flask application. Users
upload PDF or Word documents. The application extracts their text and cuts it
into chunks of 100 words. It then indexes each chunk in a vector store.

Four modules:

- `Outcomes` (`outcomes.dfy`): the `Result` datatype. It also holds the two
  Python exceptions the core raises, `ValueError` and `RuntimeError`, each
  with its message.
- `PyStrings` (`pystrings.dfy`): the Python string operations the core relies
  on:
  - `str.split(" ")` as `SplitOn`, with empty fields kept;
  - `" ".join` as `JoinWith`;
  - `rsplit(".", 1)[1]` as `AfterLast`;
  - ASCII `str.lower` as `Lower`;
  - string accumulation with `+=` as `Concat`.

  The join/split round trips are proved here.
- `ImportFile` (`import_file.dfy`): `split_string_to_list_of_chunked_words`
  as `SplitIntoChunks`, with `itertools.batched` as `Batches`/`Batched`.
  - `get_pdf_text` and `get_docx_text` become the methods `GetPdfText` and
    `GetDocxText`. Each keeps the source's accumulation loop and is proved
    against a specification function.
  - A PDF is modelled as the sequence of its page texts.
  - A Word document is the sequence of elements its parser yields.
- `App` (`app.dfy`):
  - the upload gate `allowed_file` as `AllowedFile`, over `ALLOWED_EXTENSIONS`;
  - the extension dispatch of `download_file` as `Dispatch`, over a model of
    POSIX `os.path.splitext` (`SplitExt`);
  - the chunk-indexing loop as the method `IndexChunks`;
  - the whole of `download_file` up to rendering as the method `DownloadFile`.

  Parsers and the indexer are function parameters. The indexer receives the
  position of the call, which stands in for the random identifiers the
  vector store is given.

The model follows the code as written, including two behaviours a reader might not expect:

- Chunking the empty string gives one empty chunk `[""]`, not `[]`.
- Splitting is on single spaces with no whitespace normalisation. Runs of
  spaces therefore make empty words that count toward the chunk size.

## Model

| member | source | states |
|---|---|---|
| ImportFile.SplitIntoChunks | app/import_file.py:23-27 | the chunking fails exactly when the chunk size is below one, with the `ValueError` "n must be at least one" that `itertools.batched` raises |
| ImportFile.ChunksRoundTrip | app/import_file.py:23-27 | joining the chunks with single spaces gives back the input text exactly |
| ImportFile.ChunkFields | app/import_file.py:23-27 | chunk i, split on spaces, is the slice of the input's words from i*n up to min((i+1)*n, number of words): the chunks partition the words in order into contiguous slices |
| ImportFile.ChunkSizes | app/import_file.py:23-27 | every chunk holds between 1 and n words, and every chunk but the last holds exactly n |
| ImportFile.ChunkCount | app/import_file.py:23-27 | the number of chunks is ceil((spaces + 1) / n), i.e. (spaces + n) / n |
| ImportFile.ChunksNeverEmpty | app/import_file.py:23-27 | for any valid chunk size the list of chunks is never empty |
| ImportFile.EmptyTextIsOneEmptyChunk | app/import_file.py:23-27 | the empty text gives exactly one empty chunk |
| ImportFile.DoubleSpaceMakesEmptyField | app/import_file.py:24 | two consecutive spaces produce an empty word between the words on either side |
| ImportFile.EmptyFieldsCountTowardChunkSize | app/import_file.py:23-27 | "a  b" in chunks of two is ["a ", "b"]: the empty word fills a slot of the first chunk |
| ImportFile.Batched | app/import_file.py:24 | `itertools.batched` fails exactly when the batch size is below one |
| ImportFile.Batches | app/import_file.py:24 | `itertools.batched` yields no batch exactly for empty input, and every batch holds between 1 and n elements |
| ImportFile.BatchBounds | app/import_file.py:24 | there are just enough batches for the input: (batches - 1) * n < length <= batches * n |
| ImportFile.BatchAt | app/import_file.py:24 | batch i is the slice from i*n to min((i+1)*n, length) |
| ImportFile.FlattenBatches | app/import_file.py:24 | concatenating the batches gives back the input sequence |
| ImportFile.JoinEach | app/import_file.py:27 | one chunk per batch, each the batch's words joined by single spaces |
| ImportFile.GetPdfText | app/import_file.py:40-47 | the loop accumulates the page texts with no separator, and the result is exactly the 100-word chunking of that concatenation, which joins back to it |
| ImportFile.GetDocxText | app/import_file.py:61-68 | the loop accumulates the "text" field of those parsed elements that have one, and the result is exactly the 100-word chunking of that text, which joins back to it |
| ImportFile.TextFields | app/import_file.py:64-66 | the texts collected are never more than the elements parsed |
| ImportFile.TextFieldsOfItem | app/import_file.py:64-66 | an element without a "text" field is skipped, and one with it adds exactly that text at its own position |
| ImportFile.TextFieldsCount | app/import_file.py:64-66 | when every element carries "text" there is one text per element, and when none does there are no texts |
| ImportFile.DocxText | app/import_file.py:61-66 | the Word text is exactly as long as the collected texts together |
| ImportFile.DocxTextAppend | app/import_file.py:64-66 | the Word text of a concatenation of element lists is the concatenation of their texts |
| ImportFile.DocxTextOfItem | app/import_file.py:65-66 | one element contributes its "text" field when it has one and nothing otherwise |
| PyStrings.SplitOn | app/import_file.py:24 | `str.split(" ")` always gives at least one field, even for the empty string |
| PyStrings.JoinWith | app/import_file.py:27 | `" ".join` of a single word is that word |
| PyStrings.SplitLength | app/import_file.py:24 | `str.split(" ")` gives one more field than there are separators |
| PyStrings.SplitFieldsFree | app/import_file.py:24 | no field of `str.split(" ")` contains the separator |
| PyStrings.JoinCount | app/import_file.py:27 | joining separator-free words puts exactly one separator between consecutive words |
| PyStrings.JoinSplit | app/import_file.py:24-27 | joining the fields of a split with the separator gives back the string |
| PyStrings.SplitJoin | app/import_file.py:24-27 | splitting the join of non-empty, separator-free word lists gives back the words |
| PyStrings.SplitAround | app/import_file.py:24 | splitting around one separator is the concatenation of the splits of either side |
| PyStrings.JoinAppend | app/import_file.py:27 | joining a concatenation of two non-empty lists puts exactly one separator between their joins |
| PyStrings.Concat | app/import_file.py:41-45 | the `+=` accumulation is exactly as long as all the pieces together, counted independently from the front |
| PyStrings.ConcatAppend | app/import_file.py:41-45 | accumulating texts with `+=` distributes over concatenation of the inputs |
| PyStrings.AfterLast | app/app.py:30 | `rsplit(".", 1)[1]` is the dot-free tail after the last dot, and the name is that tail's prefix, the dot and the tail |
| PyStrings.LastIndexOfSpec | app/app.py:30 | the last-occurrence search gives -1 exactly when the character is absent, and no occurrence follows the one it finds |
| PyStrings.Lower | app/app.py:30 | lower-casing keeps the length and maps each character on its own, changing exactly A-Z |
| App.AllowedFile | app/app.py:20-30 | a name without a dot is never allowed |
| App.AllowedFileOfExtension | app/app.py:15-30 | for stem + "." + ext with ext free of dots, the name is allowed if and only if the lower-cased ext is one of pdf, doc, docx |
| App.AllowedFileIgnoresCase | app/app.py:30 | two names equal up to case are both allowed or both refused |
| App.AllowedFileOfLower | app/app.py:30 | lower-casing a name never changes whether it is allowed |
| App.LowerAfterLastDot | app/app.py:30 | lower-casing a name keeps its last dot in place, so the text after it is the lower-cased text after the original last dot |
| App.AllowedFileInnerDotIgnored | app/app.py:30 | "a.tar.pdf" is allowed: only the text after the last dot counts |
| App.AllowedFileLastDotDecides | app/app.py:30 | "a.pdf.exe" is refused |
| App.AllowedFileEmptyExtension | app/app.py:30 | any name ending in a dot is refused |
| App.AllowedFileUpperCase | app/app.py:30 | "REPORT.DOCX" is allowed |
| App.SplitExt | app/app.py:45 | the extension, when there is one, is the suffix from the last dot, and it contains no path separator |
| App.SplitExtOf | app/app.py:45 | for stem + "." + ext with ext free of dots and slashes, the extension is "." + ext unless the stem's last path component is empty or all dots |
| App.Dispatch | app/app.py:45-53 | dispatch fails only with the `RuntimeError` "The file uploaded doesn't have a supported extension", and succeeds only on the exact suffixes .pdf, .doc, .docx |
| App.DispatchOf | app/app.py:45-53 | for stem + "." + ext with ext free of dots and slashes, and the stem's last path component neither empty nor all dots: .pdf selects the PDF extractor, .doc and .docx the Word extractor, anything else fails |
| App.DispatchedIsAllowed | app/app.py:30-53 | every name the dispatch accepts also passes the upload gate |
| App.GateAcceptsWhatDispatchRejects | app/app.py:30-53 | an extension that is allowed only after lower-casing passes the gate but fails the case-sensitive dispatch |
| App.DispatchRejectsOtherCase | app/app.py:45-53 | an extension that is not letter for letter one of pdf, doc, docx makes the dispatch fail |
| App.UpperCasePdfPassesGateFailsDispatch | app/app.py:30-53 | "X.PDF" passes the gate and fails the dispatch |
| App.DotPdfPassesGateFailsDispatch | app/app.py:30-53 | ".pdf" passes the gate, but a leading dot does not start an extension, so the dispatch of that same name fails |
| App.DotfilePassesGate | app/app.py:30 | a dot followed by an allowed extension, in any letter case, passes the gate |
| App.DotfileFailsDispatch | app/app.py:45-53 | a dot-file with no further dot always fails the dispatch |
| App.NoSuffixFailsDispatch | app/app.py:45-53 | a name without an extension fails the dispatch |
| App.DispatchFixed | app/app.py:30-53 | the corrected dispatch succeeds exactly on the names the gate allows, and agrees with the as-written dispatch wherever that one succeeds; a name reaches the PDF extractor exactly when its lower-cased text after the last dot is pdf, and the Word extractor exactly when it is doc or docx |
| App.UploadPath | app/app.py:47 | the path handed to the extractor is one character longer than folder and name together, with the separator right after the folder |
| App.UploadPathParts | app/app.py:47 | the path starts with the upload folder and ends with the name |
| App.ExtractedChunks | app/app.py:45-53 | extraction fails exactly when the dispatch fails, when the extractors do not raise |
| App.ExtractedChunksBySuffix | app/app.py:45-53 | .pdf names are chunked from the PDF pages of the upload path, .doc and .docx from the Word elements |
| App.IndexAll | app/app.py:55-58 | the ids of the earlier chunks are a prefix of the ids of all the chunks: ids are only appended |
| App.OneIdPerChunk | app/app.py:55-58 | when each indexing call returns one id, there is exactly one id per chunk, in chunk order |
| App.IndexChunks | app/app.py:55-58 | the loop concatenates the ids returned for each chunk in order |
| App.DownloadFile | app/app.py:45-58 | when the extractors and the indexer do not raise, the handler fails exactly when the dispatch fails, with its `RuntimeError`; otherwise its result is the ids of the chunks extracted from the upload path, in order |

## Left out

- `app/ai.py` is not part of this model. It calls remote services: embeddings, Elasticsearch or OpenAI, and `uuid4`. `index_doc` is a function parameter of `DownloadFile`. It receives the call's position in place of randomness.
- The PDF reader and the Word document parser are abstracted. Their outputs are parameters: the page texts, and the parsed elements with their fields.
- ImportFile.GetPdfText: iterates over all pages. The source loops over `range(len(reader.page_labels))`, and the reader's label handling is not modelled.
- The Flask routes, saving the upload, `flash`/`redirect`, template rendering, `search_route` and `print` are left out. They are web and I/O glue around the modelled functions.
- App.DispatchedIsAllowed: the gate and the dispatch are applied to one and the same string. In the application, `upload_file` checks `allowed_file(file.filename)` but hands `secure_filename(file.filename)` to `download_file` (app/app.py:98-102), and `secure_filename` is not modelled. The gate/dispatch lemmas, `DispatchFixed` and the Findings row therefore assume that sanitising leaves the name unchanged. That holds for "X.PDF". It does not hold for ".pdf", which `secure_filename` turns into "pdf", so `DotPdfPassesGateFailsDispatch` describes a direct request for `/downloads/.pdf`, not an upload.
- App.DownloadFile: `readPdf`, `parseWord` and `indexDoc` are total functions here. In the application `PdfReader(path)` and `DocumentParser(path)` raise on a missing or unreadable file. That includes a genuine legacy `.doc`, which app/app.py:48-49 hands to the `.docx` parser. `index_doc` raises when a vector-store call fails, and leaves the chunks before it already indexed. These exceptions and that partial indexing are not modelled. "Fails exactly when the dispatch fails" holds only when the extractors and the indexer do not raise.
- App.ExtractedChunks: same restriction as `DownloadFile`: it fails exactly when the dispatch fails only because the parsers are total here.
- PyStrings.Lower: lower-cases ASCII letters only. Python's `str.lower` also maps non-ASCII letters. None of those lower-cases to a letter of "pdf", "doc" or "docx", so the gate's decisions are unaffected.
- App.SplitExt: models the POSIX `os.path.splitext`, with `/` as the only separator. The Windows variant is left out.
- ImportFile.SplitIntoChunks: does not model the `TypeError` a non-integer chunk size would raise, because the chunk size is an `int` here.
- App.DownloadFile: keeps the dispatch as written. The corrected `DispatchFixed` is proved beside it, see Findings.

## Findings

| source | as written | input that shows it | evidently intended | confidence | as-written member | corrected member |
|---|---|---|---|---|---|---|
| app/app.py:30 and app/app.py:45-53 | the upload gate lower-cases the text after the last dot, but the dispatch matches `os.path.splitext(name)[1]` case-sensitively | "X.PDF" is accepted at upload (`secure_filename` leaves it unchanged) and then raises "The file uploaded doesn't have a supported extension" | every file the gate accepts is dispatched to its extractor | not executed | App.UpperCasePdfPassesGateFailsDispatch | App.DispatchFixed |
