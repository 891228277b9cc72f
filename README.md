# Invoice OCR pipeline: a verified model of its sequential core

The pipeline turns invoice images and PDFs into Base64 text, sends each one
to a vision model, cuts a JSON record out of the model's reply, and writes
the records into a spreadsheet report, one row per record with a coloured
completeness verdict. This project models the logic under that glue, file by
file, and proves what each part promises:

- `auto_test/ai_request.py`:
  - **Extraction** (`extraction.dfy`, pure): the reply's message content, the
    span the greedy `\{.*\}` search finds under `re.DOTALL`, the parse of that
    span, and the completeness test over three keys.
  - **Report** (`report.dfy`, imperative): the worksheet is a class whose
    methods update a map from (row, column) to cell value and fill, exactly
    as `ws.cell(...)` and `cell.fill = ...` do. Around it sit the header
    loop, the record loop, the column-width loop with its swallowed
    exception, and the `process_base64_list` loop that gathers the truthy
    records.
- `auto_test/auto_test.py` (`autotest.dfy`, mixed): the Base64 of an image
  (`None` on failure), the all-or-nothing page loop for PDFs, the
  extension dispatch, and the folder loop with its whitelist and file count.
- `convert_to_base64.py` (`converttobase64.dfy`, mixed): the same
  conversions without error handling; every failure raises.
- `auto_main.py` (`automain.dfy`, imperative): the nested `os.walk` loops.
  The suffix test decides acceptance and the format tag keeps the name's
  case. The getsize, conversion, API and extraction stages each skip to the
  next file on failure.
- Shared modules:
  - `base64.dfy`: the encoder and strict decoder of section 4 of RFC 4648,
    proved inverse in both directions.
  - `text.dfy`: the `str` and `os.path` operations the code relies on.
  - `json.dfy`: JSON values and Python truthiness.
  - `documents.dfy`: a PDF as a sequence of rendered pages.
  - `wrappers.dfy`: `Option`, and `Outcome` for a call that may raise.

Python exceptions are the `Raised` case of `Outcome`. Foreign calls enter as
function-valued parameters:
- `json.loads`;
- `call_openai_api`;
- reading a file, `os.path.isfile` and `os.path.getsize`;
- PDF rendering;
- `file_to_base64` and `extract_info_from_response` as `auto_main.py` calls
  them: they are not defined in the modules it imports them from
  (`convert_to_base64.py` and the root `ai_request.py`).

The model follows the code as written; in particular:
- The code cuts the JSON from the first `{` to the last `}` with a greedy
  regex, not with a balanced-brace scan.
- Extraction can raise: when `choices[0].message.content` cannot be reached
  as a string, Python raises rather than returning a failure.
- Column widths have no cap, and only string cells count towards them.
- The report has four columns (Amount, Date, Trading Partner,
  Completeness), with no filename or raw-JSON columns.
- `auto_main.py` accepts `.heif` and `.xlsx`, but not `.heic`, `.doc` or
  `.docx`.

## Model

| member | source | states |
|---|---|---|
| Extraction.SearchBraces | auto_test/ai_request.py:83 | `None` exactly when the content has no `{`…`}` match. Otherwise the bounds are the leftmost start and, at that start, the longest end: from the first `{` to the last `}`, newlines included |
| Extraction.ExtractInfoSpec | auto_test/ai_request.py:76-93 | About `ExtractInfo` (`extract_info_from_response`): a missing response, or one without `choices`, gives `None`. Otherwise the function raises exactly when `choices[0].message.content` is not reachable as a string. When the brace span exists the result is exactly its parse, whatever that parse gives; a returned record is always the parse of the leftmost-longest span |
| Extraction.NoRecordWithoutDecodableSpan | auto_test/ai_request.py:84-93 | When no brace span exists, or the span does not parse, the result is `None` and nothing is raised |
| Extraction.ExtractedIsObject | auto_test/ai_request.py:83-87 | If `json.loads` turns `{`-prefixed text only into objects, every extracted record is a JSON object |
| Extraction.SaveResponseAsJson | auto_test/ai_request.py:96-113 | The return value equals the extraction result in every case, so the explicit `None` guards change nothing |
| Extraction.CheckDataCompleteness | auto_test/ai_request.py:116-117 | True iff `amount`, `date` and `trading_partner` are all present and truthy; all other keys are ignored |
| Report.MaxRow | auto_test/ai_request.py:127 | openpyxl's `max_row`: the largest occupied row, or 1 on an empty sheet |
| Report.Extent | auto_test/ai_request.py:125-127 | Computes `max_row` and `max_column` of a loaded sheet's cells |
| Report.Worksheet.Fresh | auto_test/ai_request.py:129-130 | A new workbook's active sheet: named "Sheet", with no cells and no widths |
| Report.Worksheet.Load | auto_test/ai_request.py:125-126 | The loaded sheet keeps the saved title, cells and widths |
| Report.Worksheet.SetCell | auto_test/ai_request.py:139-141 | `ws.cell(row, column, value)` creates a missing cell and stores the value, but does not overwrite an existing cell with `None`; `max_row` and `max_column` stay the extent of the cells, and grow when the new cell lies outside it |
| Report.Worksheet.AddCell | auto_test/ai_request.py:139-141 | A cell created at an empty position is added with nothing else changed, and `max_row` and `max_column` grow to take it in |
| Report.Worksheet.SetFill | auto_test/ai_request.py:148-151 | Only the fill of that one cell changes |
| Report.Worksheet.WriteHeaders | auto_test/ai_request.py:132-134 | Row 1 of the empty sheet holds exactly the four header titles |
| Report.Worksheet.WriteRecord | auto_test/ai_request.py:139-153 | The four cells of one record are added on a row below every existing cell, which becomes `max_row`; nothing else changes |
| Report.Worksheet.WriteRecords | auto_test/ai_request.py:138-153 | Record k is on row start+k; all earlier cells are kept |
| Report.Worksheet.LongestTextIn | auto_test/ai_request.py:157-164 | The running `max_length` of one column over rows 1 to `max_row` |
| Report.Worksheet.FitWidths | auto_test/ai_request.py:156-166 | The `for column in ws.columns` loop leaves the widths updated by the width rule for every column up to `max_column`, without touching the sheet |
| Report.ColumnWidthsAt | auto_test/ai_request.py:156-166 | The width rule sets exactly columns 1 to `max_column`, each to 2 plus its longest string |
| Report.Worksheet.AutoFitColumns | auto_test/ai_request.py:156-166 | Every column up to `max_column` of an occupied sheet gets width 2 plus its longest string; cells and other widths are kept |
| Report.LongestTextIsLongestString | auto_test/ai_request.py:159-165 | `max_length` bounds every string cell of the column and is attained by one, or is 0; numbers and `None` count for nothing |
| Report.HeaderCellsAt | auto_test/ai_request.py:132-134 | After `n` passes of the header loop, row 1 holds exactly the first `n` titles in columns 1 to `n` |
| Report.RecordRowsLayout | auto_test/ai_request.py:138-153 | The records fill exactly rows start to start+\|data\|−1, columns 1 to 4, record k on row start+k |
| Report.WriteToExcel | auto_test/ai_request.py:120-169 | The sheet that is saved: a fresh sheet is titled "json_check" and holds the headers plus the records from row 2; a loaded sheet keeps its title and gets the records appended; the widths follow the width rule |
| Report.FreshReportHasHeaders | auto_test/ai_request.py:128-135 | A fresh report's row 1 is exactly the four headers, and its data starts at row 2 |
| Report.AppendKeepsEarlierRows | auto_test/ai_request.py:124-127 | Appending to a saved report writes no header, keeps every saved cell, and adds nothing at or above its `max_row` |
| Report.RecordRowLayout | auto_test/ai_request.py:138-153 | Record k sits on row StartRow+k: amount, date and trading partner (`None` if absent), then "True" on 00FF00 iff complete, otherwise "False" on FF0000 |
| Report.ReportRowCount | auto_test/ai_request.py:138-153 | The report's new `max_row` is StartRow + \|data_list\| − 1, for every list: with no records it stays the row above StartRow |
| Report.ResultsAreObjects | auto_test/ai_request.py:176-177 | Every value `save_response_as_json` returns for an item is a JSON object |
| Report.CollectRaisesIff | auto_test/ai_request.py:175-179 | The loop raises iff the extraction raises for some item |
| Report.CollectKeepsTruthyInOrder | auto_test/ai_request.py:174-179 | `all_data` is exactly the truthy results, in input order; every other item returned `None` or a falsy value |
| Report.CallEach | auto_test/ai_request.py:174-179 | One API call per item: all items when nothing raises; otherwise the calls stop at the first item whose extraction raised |
| Report.ProcessBase64List | auto_test/ai_request.py:173-184 | The loop's result, plus a report that is written once, and only iff some record was kept, with the title, cells and column widths `write_to_excel` produces |
| Base64.EncodeShape | auto_test/auto_test.py:16 | The output has length 4·⌈n/3⌉ and uses only the standard alphabet and `=` |
| Base64.DecodeEncode | auto_test/auto_test.py:16 | Decoding an encoding gives back the bytes exactly |
| Base64.EncodeDecode | convert_to_base64.py:13 | Every text the strict decoder accepts is the encoding of its result, so the two are inverse bijections |
| Documents.PageTexts | auto_test/auto_test.py:29-40 | One text per page, in page order, each decoding to that page's bytes |
| AutoTest.ImageToBase64 | auto_test/auto_test.py:13-21 | `None` iff the file could not be read; otherwise text of length 4·⌈n/3⌉, in the alphabet, that decodes to the file's bytes |
| AutoTest.PdfImagesAllOrNothing | auto_test/auto_test.py:24-46 | When every page converts, one text per page in page order, each decoding to its page; any failure gives `[]`, discarding converted pages |
| AutoTest.PdfToBase64 | auto_test/auto_test.py:24-46 | The page loop returns exactly the all-or-nothing result |
| AutoTest.FileImagesShape | auto_test/auto_test.py:49-57 | A `.pdf` extension in any case gives one text per page, in order, each decoding to its page, or `[]` when some page fails to render; any other path gives a single item, which is `None` iff reading failed and otherwise decodes to the file's bytes |
| AutoTest.FileToBase64 | auto_test/auto_test.py:49-57 | The dispatch returns what the chosen converter returns |
| AutoTest.FolderImagesAppend | auto_test/auto_test.py:64-70 | The result over a listing is the result over its first part followed by the rest's, and the counts add up |
| AutoTest.FolderImagesSingle | auto_test/auto_test.py:64-71 | A name contributes its file's items and counts once when it is a regular file with a whitelisted extension; otherwise it contributes nothing |
| AutoTest.CountIncludesEmptyConversions | auto_test/auto_test.py:69-74 | A handled PDF that cannot be opened is counted, but contributes no items |
| AutoTest.LeadingDotNameSkipped | auto_test/auto_test.py:67-68 | `.pdf` has no `splitext` extension, so it is skipped |
| AutoTest.UpperCaseExtensionHandled | auto_test/auto_test.py:67-68 | `SCAN.PDF` is handled, because the extension is lower-cased |
| AutoTest.ProcessFolder | auto_test/auto_test.py:60-75 | Returns the concatenation of the handled files' items in listing order, and `processed_files` = the number of handled files |
| ConvertToBase64.ImageToBase64 | convert_to_base64.py:11-15 | Raises iff reading fails; otherwise text whose length is a multiple of 4, in the alphabet, that decodes to the bytes |
| ConvertToBase64.EncodedLengthIsMultipleOf4 | convert_to_base64.py:13 | Every encoding's length is a multiple of 4 |
| ConvertToBase64.PdfToBase64 | convert_to_base64.py:18-36 | Raises iff the document cannot be opened or some page fails; otherwise returns the page texts (one per page, in order, each decoding to its page, by Documents.PageTexts); a zero-page document gives `[]` |
| Text.Lower | auto_main.py:19 | Keeps the length; no character of the result is an upper-case ASCII letter; every other character is unchanged, and an upper-case letter becomes its lower-case form |
| Text.LowerIdempotent | auto_main.py:19 | Lower-casing twice is lower-casing once |
| Text.SplitExtShape | auto_test/auto_test.py:50 | `splitext`'s extension is empty, or a final `.xyz` containing no dot or slash, preceded in the path by some character that is not a dot or slash |
| Text.SplitExtAt | auto_test/auto_test.py:50 | Conversely, a final `.xyz` with no dot or slash in it, preceded in the last path component by a character other than a dot, is exactly `splitext`'s extension |
| Text.AfterLastDotShape | auto_main.py:25 | `split('.')[-1]` is the dot-free end of the name: the whole name, or what follows its last dot |
| Text.JoinShape | auto_main.py:13 | The joined path ends with the name, with the folder and at most one `/` before a relative name |
| AutoMain.HandleFile | auto_main.py:13-61 | One file's staged try/except body; each `continue` ends the file with the fate the stages decide |
| AutoMain.Run | auto_main.py:10-61 | The nested walk loops log one fate per file, in walk order |
| AutoMain.EveryFileHandledOnce | auto_main.py:11-13 | No file aborts the run: every walked path gets exactly one log entry, in order |
| AutoMain.RejectedFileIsSkipped | auto_main.py:19-21 | A file is rejected iff its lower-cased name has none of the six suffixes; a rejected file is never converted or sent |
| AutoMain.ApiCalledOnlyAfterTruthyConversion | auto_main.py:24-42 | The API is called only after the size was read and the conversion, under the name's format tag, returned a truthy value; that value is what gets sent |
| AutoMain.FailedConversionSkipsApi | auto_main.py:28-37 | A conversion that raises or returns a falsy value ends the file before the API call |
| AutoMain.FalsyResponseStillExtracted | auto_main.py:42-53 | Whatever the API returns, `None` included, is passed to extraction |
| AutoMain.SupportedExamples | auto_main.py:16-19 | `.pdf`, `SCAN.HEIF` and `a.xlsx` are accepted |
| AutoMain.RejectedExamples | auto_main.py:16-19 | `.heic` and `.docx` files are rejected |
| AutoMain.AcceptanceDiffersFromFolderFilter | auto_main.py:19 | A file named `.pdf` and a `.heif` image pass the run loop's suffix test, but the batch test's `splitext` whitelist rejects them |
| AutoMain.FormatTagKeepsCase | auto_main.py:25 | `A.PDF` gets the format tag `PDF` |

## Left out

- `json.loads` is an abstract parse function. Its grammar is not modelled. The one property used about it is a hypothesis: text starting with `{` parses only to an object.
- `call_openai_api`, in both versions, is a function parameter, because it is a network call. Its HTTP handling, and the fact that `response.json()` could be a non-object, are not modelled: a response is a JSON object.
- `save_response_as_json` is modelled by its return value only. Its timestamped file name and the `json.dump` write are file output, so they are left out.
- The report file's existence check, `load_workbook` and `wb.save` become an optional saved sheet as input and the returned sheet as output. Failures of these calls are not modelled.
- openpyxl's checks on the value a cell accepts are left out: illegal characters, the 32,767-character limit, lists or dicts raising, and formula detection. The row and column limits of a sheet are left out too.
- Report.Worksheet.AutoFitColumns: creating empty placeholder cells while iterating `ws.columns` is not modelled, because those cells hold no value. Widths are kept as integers.
- The PNG re-rendering of PDF pages through PyMuPDF and PIL is a foreign library call. Each page is modelled as already-rendered bytes, or as a failure.
- `file_to_base64`, which `auto_main.py` imports from `convert_to_base64.py`, and `extract_info_from_response`, which it imports from the root `ai_request.py`, are not defined in those modules. Both are modelled as abstract stages, and the import failure itself is not modelled. `auto_main.py` calls `file_to_base64` with two arguments, the path and the format tag, whereas the one-argument `file_to_base64` of `auto_test/auto_test.py` is a different function.
- `call_openai_api` is modelled as a function of its payload, so two equal payloads get the same reply. The real network call may answer them differently. No proved property depends on this.
- The file-size value is only logged, so only its failure is modelled.
- The directory listing and the `os.walk` order are inputs, given as sequences. Logging and `print` are left out.
- The module-level driver code at the end of `auto_test.py` and `convert_to_base64.py`, and the scripts `main.py`, `ai_request.py`, `test_1_image.py` and `test_2_image.py`, are not part of this model. They hold only hard-coded paths and I/O.
- Text.Lower: only ASCII letters are lower-cased. Python's full Unicode case mapping is not modelled, because file extensions are ASCII.
- Text.SplitExtShape: only POSIX `/` separators are modelled, not Windows drive letters or backslashes.
- Extraction.ExtractInfoSpec: a `choices` value that is a dict with key `0`, or a non-`str` `content` that `re.search` would still accept, is treated as raising.
