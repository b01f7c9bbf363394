# pdfedit: a verified model of its editing rules

pdfedit is a PDF editor in two layers:
- a Next.js front end whose API routes (`/api/pdf/add-text`, `delete-pages`, `redact-text`, `replace-text`, `search-text`, `add-image`) check a request, download the stored PDF, ask a Python service to edit it, and store the result under a fresh version name;
- FastAPI services (`scripts/pdf_api.py` and `pdf-editor/scripts/api.py`) that decode the comma-list form fields, check page indices and drive a `PDFProcessor` over PyMuPDF.

This project models the rules of both layers that are the repository's own, in Dafny, and proves what they promise:
- **Version names.** The store name loses its leading `[a-f0-9-]+-` version prefix and gains a fresh UUID. Upload names are `<timestamp>-<name>`.
- **The edit-then-swap update of the store.** `withPdfOperation` downloads, operates, uploads the new name, then deletes the old name best-effort; the add-image route repeats this inline. The store is a class over a `map` from name to bytes.
- **Page-list operations.** Deletion in descending order, selection, range and length checks, the merge pre-check, and redaction counting. They run on a `Document` class holding a sequence of opaque pages.
- **The comma-list wire encoding.** The TypeScript bridge joins lists with `,`; the services split them again, with and without blank filtering. Both directions are proved as round trips.
- **Request checks and error classification.** `validateRequired`, `handleApiError`, `buildApiError`, `ensureOk`, `extractBinaryResponse`, `parseRect` and the per-route field checks.
- **The age-based sweep of the local storage directory.**

Modules follow the source files:

| module | source file |
|---|---|
| `VersionNames`, `PdfOperationWrapper` | `pdf-editor/lib/pdf-operation-wrapper.ts` |
| `Storage` | `pdf-editor/lib/supabase.ts`, `pdf-editor/lib/local-storage.ts` |
| `Pages`, `PdfProcessor` | `pdf_processor.py` and its copy `pdf-editor/scripts/pdf_processor.py` |
| `PdfApi` | `scripts/pdf_api.py` |
| `EditorApi` | `pdf-editor/scripts/api.py` |
| `PythonBridge` | `pdf-editor/lib/python-bridge.ts` |
| `ApiClient` | `pdf-editor/lib/pdf-api-client.ts` |
| `ApiUtils` | `pdf-editor/lib/api-utils.ts` |
| `ApiTypes` | `pdf-editor/types/api.ts` |
| `Cleanup` | `pdf-editor/lib/cleanup.ts` |
| one module per route | `pdf-editor/app/api/pdf/*/route.ts` |

Four helper modules support them:
- `Wrappers`: `Option` and `Result`.
- `Strings`: Python `strip`, JavaScript `trim`, `split`/`join`, decimal text.
- `Numbers`: JavaScript `Number` (with its "0x", "0o" and "0b" literals), `parseInt`, `parseFloat` and `toString` (with its exponent notation), and Python `int()` and `float()` on text (with underscores between digits and the words "inf", "infinity" and "nan"). Values are exact rationals rather than doubles, and digits are the ASCII ones; "## Left out" gives the details.
- `JsValues`: JSON-like values, truthiness and property lookup.

Some inputs are not computed by the model but passed in:
- The UUID, the clock (`now`, the upload timestamp), whether a storage call or a directory entry fails, and whether the image file exists.
- The page searches of PyMuPDF, as a function from page and target to hit rectangles.
- What the bridge and the service answer for a route's arguments.

`pdf_processor.py` and `pdf-editor/scripts/pdf_processor.py` implement the same checks, the same page-list logic and the same counts. One `PdfProcessor` module models both. The table cites the root copy.

Where a route "answers 500" below, this is because the route throws `new Error(...)` and `handleApiError` gives a plain `Error` status 500. Only the required-field check answers 400.

## Model

| member | source | states |
|---|---|---|
| VersionNames.RunLength | pdf-editor/lib/pdf-operation-wrapper.ts:54 | the length of the maximal leading run of `[a-f0-9-]` characters: every character before it is in the class, the one at it is not |
| VersionNames.LastDashBelow | pdf-editor/lib/pdf-operation-wrapper.ts:54 | the last dash at position 1 or later below a bound, or 0 when there is none: where the greedy match must end |
| VersionNames.StripVersionPrefix | pdf-editor/lib/pdf-operation-wrapper.ts:54 | the result is a suffix of the name; it is the name unchanged exactly when no `^[a-f0-9-]+-` match exists; otherwise the removed prefix is a match, and no match ends later (greedy) |
| VersionNames.StripIdempotent | pdf-editor/lib/pdf-operation-wrapper.ts:54 | stripping twice is stripping once |
| VersionNames.StripPrefixed | pdf-editor/lib/pdf-operation-wrapper.ts:54-55 | a class word and a dash put before a name whose leading run has no dash are removed again exactly |
| VersionNames.StrippedRunHasNoDash | pdf-editor/lib/pdf-operation-wrapper.ts:54 | after a strip the leading class run holds no dash (when the name had a prefix, or did not start with a dash) |
| VersionNames.EditedName | pdf-editor/lib/pdf-operation-wrapper.ts:55 | the new name is the UUID, a dash, then exactly the stripped old name |
| VersionNames.UploadName | pdf-editor/app/api/pdf/upload/route.ts:14 | the upload name ends with a dash and then the uploaded name |
| VersionNames.UuidIsPrefixWord | pdf-editor/lib/pdf-operation-wrapper.ts:55 | a lower-case UUID text (section 3 of RFC 4122) consists only of `[a-f0-9-]` characters |
| VersionNames.ReEditKeepsName | pdf-editor/lib/pdf-operation-wrapper.ts:53-55 | re-editing an edited name strips back to the same base name |
| VersionNames.ReStripKeepsName | pdf-editor/lib/pdf-operation-wrapper.ts:53-55 | `strip(u + "-" + strip(u' + "-" + rest)) == strip(u' + "-" + rest)` for any non-empty class words u and u' |
| VersionNames.UploadStripsToName | pdf-editor/app/api/pdf/upload/route.ts:14 | `<timestamp>-<name>` strips back to the name whenever the name's leading class run has no dash |
| VersionNames.LeadingWordIsLost | pdf-editor/app/api/pdf/upload/route.ts:14 | an uploaded name that itself starts with a class word and a dash loses that word as well on its first edit |
| Storage.Store.constructor | pdf-editor/lib/supabase.ts:3 | the store starts with the given backend and files |
| Storage.Store.Download | pdf-editor/lib/supabase.ts:27-44 | succeeds exactly for a stored name and gives its bytes; otherwise fails |
| Storage.Store.Upload | pdf-editor/lib/supabase.ts:5-25 | the Supabase backend refuses an existing name (no upsert), the local directory overwrites; on success the name maps to the data, on failure nothing changes |
| Storage.Store.Delete | pdf-editor/lib/supabase.ts:46-62 | on success the name is gone and nothing else changes; the local directory fails on a missing name |
| PdfOperationWrapper.OperationOutcome | pdf-editor/lib/pdf-operation-wrapper.ts:34-74 | the download's, the operation's or the upload's failure, in that order; otherwise the new name with the operation's message and removed count passed through |
| PdfOperationWrapper.FilesAfter | pdf-editor/lib/pdf-operation-wrapper.ts:40-67 | any failure leaves the store unchanged; a success stores the output under the new name, removes the old name when the delete succeeds, and keeps it when the delete fails |
| PdfOperationWrapper.WithPdfOperation | pdf-editor/lib/pdf-operation-wrapper.ts:34-74 | the answer and the new store are those of OperationOutcome and FilesAfter, case by case: missing file, failed operation, refused upload (nothing changes), or upload then best-effort delete |
| PdfOperationWrapper.SwapReplacesEntry | pdf-editor/lib/pdf-operation-wrapper.ts:58-64 | after a successful swap the new name holds the output, the old name is gone, and every other entry is unchanged |
| PdfOperationWrapper.FailedDeleteKeepsOld | pdf-editor/lib/pdf-operation-wrapper.ts:62-67 | a failed delete is swallowed: both the old and the new version remain stored |
| Pages.WithEdit | pdf_processor.py:28-35 | an edited page keeps its content and gains exactly one edit at the end |
| Pages.InvalidPages | pdf_processor.py:190 | the out-of-range indices in input order: a value is listed iff it is in the list and out of `[0, n)`; empty iff every index is in range |
| Pages.InvalidPagesAppend | pdf_processor.py:190 | the invalid-page list of a concatenation is the concatenation of the lists |
| Pages.RemoveAt | pdf_processor.py:195 | `delete_page(i)`: one page fewer, the pages before i unchanged, the pages after shifted down by one |
| Pages.Selected | pdf_processor.py:226 | `select(L)`: output page i is input page `L[i]` |
| Pages.SelectIdentity | pdf_processor.py:226 | selecting `[0, …, n-1]` gives the document back |
| Pages.ReorderUndone | pdf_processor.py:216-226 | a reorder followed by its inverse order gives the document back |
| Pages.DeleteEach | pdf_processor.py:194-195 | deleting indices one after the other removes one page per index |
| Pages.DescendingDeletion | pdf_processor.py:194-195 | deleting distinct in-range indices in strictly descending order removes exactly those positions and keeps the survivors in order |
| Pages.DuplicateDeletesNextPage | pdf_processor.py:194-195 | a duplicated index deletes the page after it as well |
| Pages.InsertDescending | pdf_processor.py:194 | inserting into a descending list adds exactly that value |
| Pages.InsertKeepsOrder | pdf_processor.py:194 | insertion keeps a list non-increasing |
| Pages.SortDescending | pdf_processor.py:194 | `sorted(L, reverse=True)`: non-increasing and a permutation of L |
| Pages.SortDistinct | pdf_processor.py:194 | the sort of a list without duplicates is strictly descending and holds the same values |
| Pages.SortedInRange | pdf_processor.py:194 | sorting keeps every index in range |
| Pages.DeletePagesRemovesListed | pdf_processor.py:190-195 | for distinct in-range indices the descending deletion loop removes exactly the listed positions |
| Pages.RedactedPages | pdf_processor.py:297-306 | redaction keeps the number of pages |
| Pages.TotalHitsAppend | pdf_processor.py:297-306 | the hit count over two target lists is the sum of the counts |
| Pages.RedactStep | pdf_processor.py:297-306 | one more page adds its redacted version and its hit count |
| Pages.MarkHits | pdf_processor.py:299-305 | the nested loop marks exactly the page's hits over all targets and adds their number to the counter |
| Pages.Document.constructor | pdf_processor.py:23 | a document opened with the given pages |
| Pages.Document.DeletePage | pdf_processor.py:195 | succeeds iff the index is in range, and then removes exactly that page |
| Pages.Document.DeleteInOrder | pdf_processor.py:194-195 | the loop succeeds iff every deletion in turn is in range, and leaves DeleteEach's result |
| Pages.Document.Select | pdf_processor.py:226 | the pages become the selection |
| Pages.Document.InsertPdf | pdf_processor.py:248-252 | the other document's pages are appended |
| Pages.Document.EditPage | pdf_processor.py:28-35 | only the edited page changes, by one edit |
| Pages.Document.RedactAll | pdf_processor.py:297-306 | every page gets its redactions applied and `removed` is the total hit count |
| PdfProcessor.PyIntListRepr | pdf_processor.py:191 | `str(list)` of integers is bracketed |
| PdfProcessor.PyStrListRepr | pdf_processor.py:245 | `str(list)` of strings is bracketed |
| PdfProcessor.IntListReprExample | pdf_processor.py:191 | `str([1, -2])` is "[1, -2]": element texts with ", " between them |
| PdfProcessor.StrListReprExample | pdf_processor.py:245 | `str(['a', 'b'])` is "['a', 'b']" |
| PdfProcessor.AddTextResult | pdf_processor.py:11-45 | succeeds iff the page is in `[0, len(doc))`; else "Invalid page number: p" and nothing saved; on success only that page changes, by the inserted text |
| PdfProcessor.AddText | pdf_processor.py:11-45 | the answer is AddTextResult and the document becomes what it saved, or stays unchanged |
| PdfProcessor.ReplaceResult | pdf_processor.py:93-138 | a rect of other than 4 values is refused first, then the page range; on success the area is blanked, the replacement is written iff non-empty, and the message is "Replaced text" iff it was written, else "Removed text" |
| PdfProcessor.ReplaceTextInstance | pdf_processor.py:93-138 | the answer is ReplaceResult and the document follows it |
| PdfProcessor.AddImageResult | pdf_processor.py:141-179 | a missing image is refused, then a page out of range; on success only that page changes |
| PdfProcessor.AddImage | pdf_processor.py:141-179 | the answer is AddImageResult and the document follows it |
| PdfProcessor.DeleteResult | pdf_processor.py:182-205 | any out-of-range index fails listing exactly the invalid indices in input order, nothing saved; success removes `len(page_numbers)` pages (duplicates counted) and says so |
| PdfProcessor.DistinctPagesDeleted | pdf_processor.py:190-201 | for distinct valid indices, the saved document is the original with exactly those positions removed, survivors in order |
| PdfProcessor.DeletePages | pdf_processor.py:182-205 | the answer is DeleteResult, and the document is what it saved, or unchanged when an index is out of range |
| PdfProcessor.ReorderResult | pdf_processor.py:208-236 | the length is checked before the ranges; on success output page i is input page `new_order[i]`, duplicates allowed |
| PdfProcessor.ReorderPages | pdf_processor.py:208-236 | the answer is ReorderResult and the document follows it |
| PdfProcessor.ExtractResult | pdf_processor.py:265-287 | no length requirement; after the range check the output is the listed pages in listed order |
| PdfProcessor.ExtractPages | pdf_processor.py:265-287 | the answer is ExtractResult and the document follows it |
| PdfProcessor.MissingFiles | pdf_processor.py:244 | a path is listed iff it is given and does not exist; the list is empty iff every path exists |
| PdfProcessor.MergedPagesAppend | pdf_processor.py:248-252 | merging a concatenation of paths concatenates the merged pages |
| PdfProcessor.MergePdfs | pdf_processor.py:239-262 | fails listing every missing path before any file is opened; otherwise the pages of all files in order, with "Merged n PDFs" |
| PdfProcessor.RedactResult | pdf_processor.py:290-317 | always succeeds; `removed_count` and the message are the total hits over every page and target |
| PdfProcessor.RedactText | pdf_processor.py:290-317 | the answer is RedactResult and every page is redacted |
| PdfApi.NonBlank | scripts/pdf_api.py:49 | keeps only fields that are not blank once stripped, each one of the input's fields |
| PdfApi.NonBlankAppend | scripts/pdf_api.py:49 | the filter distributes over concatenation |
| PdfApi.ParseAll | scripts/pdf_api.py:49-51 | succeeds iff every item parses, and then gives each item's value in order; otherwise names the first failing item |
| PdfApi.ParseIntList | scripts/pdf_api.py:47-51 | the integers of the stripped non-blank comma fields in order; any non-integer field gives a 400 naming the field |
| PdfApi.ParseStringList | scripts/pdf_api.py:54-55 | never yields an empty, padded or comma-holding entry |
| PdfApi.StrippedFieldsClean | scripts/pdf_api.py:55 | every stripped non-blank field is non-empty, unpadded and comma-free |
| PdfApi.IntegerTexts | pdf-editor/lib/python-bridge.ts:165 | one decimal text per integer |
| PdfApi.IntListRoundTrip | scripts/pdf_api.py:49 | `_parse_int_list(L.join(','))` is L for every integer list L, the empty one included |
| PdfApi.TrailingCommaIgnored | scripts/pdf_api.py:49-55 | a trailing comma changes neither parse |
| PdfApi.StringListRoundTrip | scripts/pdf_api.py:55 | `_parse_string_list(T.join(','))` is T iff every entry is non-empty, comma-free and unpadded |
| PdfApi.CleanListRoundTrip | scripts/pdf_api.py:55 | the if-direction of the round trip, for clean entries |
| PdfApi.EnsureSuccess | scripts/pdf_api.py:58-61 | a truthy `success` gives the result unchanged; otherwise a 400 with `error`, or "Operation failed." |
| PdfApi.ResultHeaders | scripts/pdf_api.py:77-81 | `X-Operation-Message` iff the message is non-empty, with the message; `X-Removed-Count` iff the key exists, with the count in decimal |
| PdfApi.FileResultResponse | scripts/pdf_api.py:64-90 | a failure is `_ensure_success`'s 400; a missing output a 500; otherwise the file with ResultHeaders |
| PdfApi.DownloadName | scripts/pdf_api.py:130 | `"<op>-" + (filename or "document") + ".pdf"` |
| PdfApi.MessageHeader | scripts/pdf_api.py:78-79 | exactly one header, the operation message |
| PdfApi.FailedReply | scripts/pdf_api.py:58-61 | a failed processor result answers 400 with its error |
| PdfApi.DoneReply | scripts/pdf_api.py:72-90 | a success without removed count answers the file with only the message header |
| PdfApi.AddTextEndpoint | scripts/pdf_api.py:98-141 | answers FileResultResponse of the processor's add_text with the "add-text" download name |
| PdfApi.AddTextReply | scripts/pdf_api.py:98-141 | a page out of range answers 400 "Invalid page number: p"; otherwise the edited file with the message header |
| PdfApi.AddImageEndpoint | scripts/pdf_api.py:144-183 | answers FileResultResponse of add_image with the "add-image" download name |
| PdfApi.AddImageReply | scripts/pdf_api.py:144-183 | the 400 for a bad page, or the edited file with its message |
| PdfApi.DeletePagesEndpoint | scripts/pdf_api.py:186-215 | an unparsable list answers 400 and leaves the document; otherwise the processor's delete_pages on the parsed list |
| PdfApi.DeleteReply | scripts/pdf_api.py:186-215 | invalid indices answer 400 listing them; distinct valid ones give the document without those pages and "Deleted n pages" |
| PdfApi.ReorderPagesEndpoint | scripts/pdf_api.py:218-247 | an unparsable order answers 400; otherwise reorder_pages on it |
| PdfApi.ReorderReply | scripts/pdf_api.py:218-247 | length mismatch first, then invalid indices, then the selected pages with "Reordered n pages" |
| PdfApi.ExtractPagesEndpoint | scripts/pdf_api.py:282-311 | an unparsable list answers 400; otherwise extract_pages on it |
| PdfApi.ExtractReply | scripts/pdf_api.py:282-311 | invalid indices answer 400, else the selected pages with "Extracted n pages" |
| PdfApi.MergeEndpoint | scripts/pdf_api.py:250-279 | fewer than two files answer 400 before any work; otherwise the merged pages as "merged.pdf" |
| PdfApi.RedactTextEndpoint | scripts/pdf_api.py:314-351 | an empty parsed target list answers 400 and leaves the document; otherwise redact_text on the targets |
| PdfApi.RedactReply | scripts/pdf_api.py:314-351 | the redacted file, with `X-Removed-Count` set to the total hits in decimal |
| PdfApi.ParseRectValues | scripts/pdf_api.py:422-425 | succeeds iff every field reads as a float, and then value i is `float(field_i.strip())`; otherwise a 400 "Invalid rect: could not convert string to float: '<field>'" quoting the first refused field, stripped |
| PdfApi.RectOfIntegerTexts | scripts/pdf_api.py:422-425 | whole numbers joined with commas are read back as those numbers |
| PdfApi.FieldFloatOfInteger | scripts/pdf_api.py:423 | `float(str(k).strip())` is k |
| PdfApi.RectWordRefused | scripts/pdf_api.py:422-425 | the rect "1, x " answers 400 "Invalid rect: could not convert string to float: 'x'" |
| PdfApi.ReplaceTextEndpoint | scripts/pdf_api.py:400-454 | an unreadable rect answers 400 and leaves the document; otherwise replace_text_instance on the values |
| PdfApi.ReplaceReply | scripts/pdf_api.py:400-454 | 400 for a rect of other than 4 values or a bad page; otherwise "Replaced text" iff a replacement was written |
| EditorApi.IntList | pdf-editor/scripts/api.py:113 | `[int(p) for p in fields]`: succeeds iff every field is an integer, giving them in order |
| EditorApi.EmptyFieldRejected | pdf-editor/scripts/api.py:113 | any empty field (an empty list, a doubled or trailing comma) makes the parse fail |
| EditorApi.RawIntListRoundTrip | pdf-editor/scripts/api.py:113 | a non-empty integer list joined with commas parses back to itself |
| EditorApi.TrailingCommaRejected | pdf-editor/scripts/api.py:113 | a trailing comma fails here but is ignored by `_parse_int_list` |
| EditorApi.AddTextReply | pdf-editor/scripts/api.py:19-58 | a page out of `[0, n)` answers 400; otherwise only that page changes, with the fixed message header |
| EditorApi.AddText | pdf-editor/scripts/api.py:19-58 | the answer is AddTextReply and the document follows it |
| EditorApi.AddTextAsProcessor | pdf-editor/scripts/api.py:35-39 | the service accepts exactly the pages the processor accepts, saves the same pages, and gives the same error text |
| EditorApi.AddImageReply | pdf-editor/scripts/api.py:61-102 | a page out of range answers 400; otherwise only that page changes |
| EditorApi.AddImage | pdf-editor/scripts/api.py:61-102 | the answer is AddImageReply and the document follows it |
| EditorApi.DeletePagesReply | pdf-editor/scripts/api.py:105-133 | an unparsable list fails (500); invalid indices answer 400 listing them; success removes `len(pages)` pages and says so |
| EditorApi.DeletePages | pdf-editor/scripts/api.py:105-133 | the answer is DeletePagesReply; the descending loop leaves its pages, and a 400 leaves the document |
| EditorApi.DeletePagesDistinct | pdf-editor/scripts/api.py:122-123 | for distinct valid indices the answer is the document without exactly those pages |
| EditorApi.ReorderPagesReply | pdf-editor/scripts/api.py:136-169 | the length mismatch before the range check, then output page i is input page `order[i]` |
| EditorApi.ReorderPages | pdf-editor/scripts/api.py:136-169 | the answer is ReorderPagesReply and the document follows it |
| EditorApi.ExtractPagesReply | pdf-editor/scripts/api.py:172-199 | invalid indices answer 400, else the listed pages in order |
| EditorApi.ExtractPages | pdf-editor/scripts/api.py:172-199 | the answer is ExtractPagesReply and the document follows it |
| EditorApi.PageListsAsProcessor | pdf-editor/scripts/api.py:144-189 | for a parsed list, reorder and extract accept, save and refuse exactly as the processor does |
| EditorApi.RedactTextReply | pdf-editor/scripts/api.py:202-235 | targets from an unfiltered split; every page redacted; both headers give the total hit count |
| EditorApi.RedactText | pdf-editor/scripts/api.py:202-235 | the answer is RedactTextReply and every page is redacted |
| EditorApi.TrailingCommaSearchesEmpty | pdf-editor/scripts/api.py:213 | a trailing comma adds a search for the empty string to the count, and the count header reads back as the count |
| PythonBridge.ToFileField | pdf-editor/lib/python-bridge.ts:90-93 | the file keeps its bytes and name; the content type defaults to `application/pdf` when absent or empty |
| PythonBridge.FormData.constructor | pdf-editor/lib/python-bridge.ts:116 | an empty form |
| PythonBridge.FormData.Append | pdf-editor/lib/python-bridge.ts:117 | one entry appended at the end |
| PythonBridge.FormData.AppendColour | pdf-editor/lib/python-bridge.ts:124-127 | the three colour components appended in order |
| PythonBridge.FormData.AppendOptional | pdf-editor/lib/python-bridge.ts:95-102 | appends the value's text unless it is undefined or null |
| PythonBridge.OptionalKeepsZeroAndFalse | pdf-editor/lib/python-bridge.ts:100-101 | `0` and `false` are still sent, as "0" and "false"; undefined and null are not |
| PythonBridge.AddTextForm | pdf-editor/lib/python-bridge.ts:104-130 | the form holds exactly the add-text fields in order |
| PythonBridge.AddTextDefaults | pdf-editor/lib/python-bridge.ts:121-127 | page 0, font size 12, font name "helv" and colour (0,0,0) by default |
| PythonBridge.AddTextDefaultColour | pdf-editor/lib/python-bridge.ts:124 | without a colour the three components are 0 |
| PythonBridge.DefaultTexts | pdf-editor/lib/python-bridge.ts:121-122 | the default numbers go out as "0", "1" and "12" |
| PythonBridge.AddImageForm | pdf-editor/lib/python-bridge.ts:132-157 | the form holds exactly the add-image fields in order |
| PythonBridge.ImageSizeSentOnlyWhenGiven | pdf-editor/lib/python-bridge.ts:149-154 | `width` and `height` are sent iff given |
| PythonBridge.PageListForm | pdf-editor/lib/python-bridge.ts:159-187 | the file and the list joined with commas |
| PythonBridge.AsNumbers | pdf-editor/lib/python-bridge.ts:161 | integers as JavaScript numbers, one for one |
| PythonBridge.IntegerListText | pdf-editor/lib/python-bridge.ts:165 | joining whole numbers below 10^21 in magnitude gives their decimal texts joined with commas |
| PythonBridge.PageListWireRoundTrip | pdf-editor/lib/python-bridge.ts:165 | the page list sent, of whole numbers below 10^21 in magnitude, is read back by `_parse_int_list` as the same integers |
| PythonBridge.RedactForm | pdf-editor/lib/python-bridge.ts:189-202 | the form holds the file, the joined targets and the fill |
| PythonBridge.RedactDefaultFill | pdf-editor/lib/python-bridge.ts:197 | the fill defaults to (1,1,1) |
| PythonBridge.TargetsWireRoundTrip | pdf-editor/lib/python-bridge.ts:196 | the targets go out joined with commas, and `_parse_string_list` gives them back iff each is non-empty, comma-free and unpadded |
| PythonBridge.SearchForm | pdf-editor/lib/python-bridge.ts:214-219 | the form holds the file, the query and the optional search flags |
| PythonBridge.StyleFields | pdf-editor/lib/python-bridge.ts:269-281 | the styling fields never include the replacement |
| PythonBridge.ReplaceForm | pdf-editor/lib/python-bridge.ts:249-284 | the form holds exactly the replace-text fields in order |
| PythonBridge.ReplacementSentOnlyWhenGiven | pdf-editor/lib/python-bridge.ts:266-268 | `replacement` is sent iff given, as given |
| PythonBridge.EnsureOk | pdf-editor/lib/python-bridge.ts:36-46 | always an error keeping the status; object payload: `detail`, else `error`, else its JSON; otherwise the payload's text, else the status text, else "PDF API request failed with status N" |
| PythonBridge.EnsureOkOfText | pdf-editor/lib/python-bridge.ts:40 | a non-empty text payload is the message |
| PythonBridge.ExtractBinaryResponse | pdf-editor/lib/python-bridge.ts:48-58 | the body and the message header pass through; `removedCount` is undefined when the header is absent, empty or not finite, else `Number(header)` |
| PythonBridge.HeaderValue | pdf-editor/lib/python-bridge.ts:49-50 | a header's value when one of that name is present, none iff no header has the name |
| PythonBridge.HeadersRoundTrip | pdf-editor/lib/python-bridge.ts:48-58 | the bridge reads back the message and removed count that `_file_result_response` sets |
| PythonBridge.PostPdfCatch | pdf-editor/lib/python-bridge.ts:78-87 | a `TypeError` mentioning "fetch" becomes a 503 flagged as an outage; anything else is rethrown unchanged |
| PythonBridge.PostPdf | pdf-editor/lib/python-bridge.ts:60-88 | as written: an ok answer is extracted; an error answer with a JSON body goes through ensureOk; one with any other body fails with the runtime's `TypeError` for a body read twice, which the catch passes on; a rejected fetch goes through the catch |
| PythonBridge.BodyUnusableIsNoFetchFailure | pdf-editor/lib/python-bridge.ts:79 | the message of the body-read-twice `TypeError` does not contain "fetch", so the catch does not turn it into an outage |
| PythonBridge.PlainTextErrorAnswers500 | pdf-editor/lib/python-bridge.ts:67-75 | as written, every error answer whose body is not JSON reaches the route's caller as a 500 with the runtime's message, whatever status and text the service sent |
| PythonBridge.PostPdfReadingTextOnce | pdf-editor/lib/python-bridge.ts:67-75 | with the body read once: a non-JSON error answer goes through ensureOk with its text as the payload; every other outcome is as PostPdf |
| PythonBridge.InvalidPageAnswer | pdf-editor/scripts/api.py:35-39 | the service's plain-text 400 "Invalid page number: 7" reaches the caller as a 500 as written, and as a 400 with that text when the body is read once |
| PythonBridge.OutageOnlyFromFetch | pdf-editor/lib/python-bridge.ts:67-75 | with the body read once, an HTTP error answer is never flagged as an outage and keeps its status, and a non-empty plain-text body is its message |
| PythonBridge.OutageAnswers503 | pdf-editor/lib/python-bridge.ts:79-85 | an unreachable service reaches the route's answer as 503 with `isServiceUnavailable` true |
| ApiClient.BuildApiError | pdf-editor/lib/pdf-api-client.ts:32-53 | keeps the status; unavailable iff 502, 503 or 504; message: raw text when not JSON, a JSON string itself, an object's `error`, else `detail`, else the default; other JSON values and an empty body give the default, or the status text when non-empty |
| ApiClient.ErrorFirstUnlikeBridge | pdf-editor/lib/pdf-api-client.ts:39-40 | with both `error` and `detail`, the client reports `error` and the bridge reports `detail` |
| ApiClient.SafeFetchCatch | pdf-editor/lib/pdf-api-client.ts:21-30 | a `TypeError` becomes "Unable to reach PDF service", 503, unavailable; everything else is rethrown |
| ApiClient.Request | pdf-editor/lib/pdf-api-client.ts:55-69 | a rejected fetch through safeFetch's catch, an error answer through buildApiError, an ok answer passes |
| ApiClient.UnavailableOnlyWhenUnreachable | pdf-editor/lib/pdf-api-client.ts:8 | the error is flagged unavailable iff the network failed or the status is 502, 503 or 504 |
| ApiClient.AddImageForm | pdf-editor/lib/pdf-api-client.ts:116-138 | the form holds exactly the client's add-image fields |
| ApiClient.WidthSentUnlessNullish | pdf-editor/lib/pdf-api-client.ts:14-19 | `width` is sent as text iff it is neither undefined nor null |
| ApiTypes.NewApiError | pdf-editor/types/api.ts:20-29 | an ApiError with the message; status 500 and not unavailable by default |
| ApiUtils.FirstMissing | pdf-editor/lib/api-utils.ts:61-72 | none iff no field is undefined, null or `''`; otherwise the first missing field, every earlier one present |
| ApiUtils.ValidateRequired | pdf-editor/lib/api-utils.ts:57-73 | valid iff no listed field is missing; otherwise a 400 naming the first missing field |
| ApiUtils.ZeroAndFalseArePresent | pdf-editor/lib/api-utils.ts:62 | `0` and `false` count as present, `''` as missing |
| ApiUtils.ErrorBody | pdf-editor/lib/api-utils.ts:11-17 | the body holds the message and, only when given, the availability flag |
| ApiUtils.HandleApiError | pdf-editor/lib/api-utils.ts:7-40 | an ApiError keeps its status and flag; another object with `statusCode` gives it (0 as 500) and its flag, false by default; everything else 500; the message, or "An unknown error occurred" |
| ApiUtils.HandleApiErrorStatus | pdf-editor/lib/api-utils.ts:7-40 | the status is 500 or the error's own status |
| ApiUtils.PlainErrorIs500 | pdf-editor/lib/api-utils.ts:36-39 | `new Error(m)` answers 500 with m and no flag |
| ApiUtils.CreateSuccessResponse | pdf-editor/lib/api-utils.ts:45-52 | status 200; every supplied field as supplied; `success` true unless supplied |
| Cleanup.Removable | pdf-editor/lib/cleanup.ts:17-31 | the files one sweep removes are stored files |
| Cleanup.StorageDirectory.constructor | pdf-editor/lib/cleanup.ts:4 | the directory with the given modification times |
| Cleanup.StorageDirectory.CleanupOldPdfs | pdf-editor/lib/cleanup.ts:11-39 | a failed listing propagates and changes nothing; otherwise exactly the expired files whose stat and unlink succeed are removed and counted, all judged at one instant |
| Cleanup.BoundaryAge | pdf-editor/lib/cleanup.ts:5-23 | a file exactly 24 h old is kept; one millisecond older is expired |
| Cleanup.SurvivorsAreYoungOrFailed | pdf-editor/lib/cleanup.ts:23-30 | a file still present is not expired, or its stat or unlink failed |
| RouteSupport.ItemNumbers | pdf-editor/app/api/pdf/delete-pages/route.ts:19 | `Number` applied to every entry, in order |
| RouteSupport.RouteError | pdf-editor/app/api/pdf/delete-pages/route.ts:16 | a thrown `new Error` answers 500 with its message and no flag |
| RouteSupport.FileAnswer | pdf-editor/app/api/pdf/delete-pages/route.ts:27-30 | 200 with `success`, the file name and the message |
| RouteSupport.OperationReply | pdf-editor/app/api/pdf/delete-pages/route.ts:25-33 | a success answers 200 with the new name and the message or the route's default; a failure goes to handleApiError |
| RouteSupport.StepReply | pdf-editor/app/api/pdf/delete-pages/route.ts:6-34 | the `POST` of the add-text, delete-pages, redact-text and replace-text routes: a refused request answers the checks' response; otherwise a success answers 200 with the new name and the message or the route's default, and a failure goes through handleApiError |
| AddTextRoute.Request | pdf-editor/app/api/pdf/add-text/route.ts:6-24 | a missing `fileName` or `text` answers 400; `x` or `y` not of type number (numeric text included) answers 500; page, font and colour are forwarded unchecked |
| AddTextRoute.NumericTextCoordinateRefused | pdf-editor/app/api/pdf/add-text/route.ts:15-17 | an `x` sent as text is refused |
| DeletePagesRoute.Request | pdf-editor/app/api/pdf/delete-pages/route.ts:6-25 | required fields, then not-an-array, then empty or NaN, each refused; otherwise the converted list is forwarded in order with duplicates kept |
| DeletePagesRoute.NonIntegerRefusedByService | pdf-editor/app/api/pdf/delete-pages/route.ts:19-25 | a number that does not print as an integer (not whole, or 10^21 or more in magnitude) passes the route, but the service's integer parse refuses the joined list with 400 |
| RedactTextRoute.Request | pdf-editor/app/api/pdf/redact-text/route.ts:6-23 | required fields, then a non-empty array of targets; the targets are forwarded unchanged |
| RedactTextRoute.FillColourIgnored | pdf-editor/app/api/pdf/redact-text/route.ts:18-23 | adding `fillColor` changes neither the forwarded arguments nor the answer |
| ReplaceTextRoute.FieldNumbers | pdf-editor/app/api/pdf/replace-text/route.ts:19 | each field trimmed and passed through `Number` |
| ReplaceTextRoute.ParseRect | pdf-editor/app/api/pdf/replace-text/route.ts:8-27 | an array needs exactly 4 non-NaN `Number`s, a string exactly 4 non-NaN trimmed fields; anything else is refused; each error names its case |
| ReplaceTextRoute.BlankRectFieldIsZero | pdf-editor/app/api/pdf/replace-text/route.ts:19-23 | a blank field of a string rect reads as 0 |
| ReplaceTextRoute.RectTextRoundTrip | pdf-editor/app/api/pdf/replace-text/route.ts:18-24 | four whole numbers below 10^21 in magnitude, joined with commas, parse back to themselves |
| ReplaceTextRoute.FirstThree | pdf-editor/app/api/pdf/replace-text/route.ts:55-56 | the first three entries, or all when fewer |
| ReplaceTextRoute.Params | pdf-editor/app/api/pdf/replace-text/route.ts:58-71 | an undefined replacement stays absent, anything else (null included) is `String`ed; a falsy font name is dropped; colours only when arrays, cut to three |
| ReplaceTextRoute.Request | pdf-editor/app/api/pdf/replace-text/route.ts:29-71 | required fields, then the rect, then a NaN page, each refused; otherwise the normalised parameters |
| SearchTextRoute.Request | pdf-editor/app/api/pdf/search-text/route.ts:6-31 | required fields; the flags become their truthiness; `maxHits` is forwarded iff it has type number |
| SearchTextRoute.MatchData | pdf-editor/app/api/pdf/search-text/route.ts:39-42 | `match_count` renamed to `matchCount`, query and matches kept |
| SearchTextRoute.SearchReply | pdf-editor/app/api/pdf/search-text/route.ts:33-44 | a falsy `success` answers 500 with `error` or "Search operation failed"; otherwise 200 with the data and "Found N matches" |
| SearchTextRoute.Post | pdf-editor/app/api/pdf/search-text/route.ts:6-48 | the checks' answer; a thrown error through handleApiError; a search result answered exactly as SearchReply, so a falsy `success` gives 500 |
| SearchTextRoute.MatchCountMessage | pdf-editor/app/api/pdf/search-text/route.ts:37-44 | n matches, n below 10^21, read "Found n matches" and carry `matchCount` n |
| SearchTextRoute.MissingResultFails | pdf-editor/app/api/pdf/search-text/route.ts:33-35 | a result with neither `success` nor `error` gives the fixed message |
| AddImageRoute.PlacementOf | pdf-editor/app/api/pdf/add-image/route.ts:9-18 | coordinates by `parseFloat`; page `parseInt(..) \|\| 0`, so whole and 0 for NaN; width and height only when the field is present and non-empty |
| AddImageRoute.Post | pdf-editor/app/api/pdf/add-image/route.ts:7-56 | a refused form answers 500 and touches nothing; otherwise the answer and the store are exactly those of withPdfOperation with the same operation |
| AddImageRoute.NullTextIsNaN | pdf-editor/app/api/pdf/add-image/route.ts:12-14 | an absent field reads as NaN |
| AddImageRoute.AbsentFields | pdf-editor/app/api/pdf/add-image/route.ts:12-22 | a form without `x` or `y` is refused; one without `page` uses page 0 |
| AddImageRoute.SizeSentOnlyWhenFilled | pdf-editor/app/api/pdf/add-image/route.ts:15-18 | width and height reach the service iff their fields were filled in |
| Strings.PyStripIdempotent | scripts/pdf_api.py:49 | stripping twice is stripping once |
| Strings.Split | scripts/pdf_api.py:49 | at least one field, none holding the separator, and joining them gives the text back |
| Strings.SplitJoin | pdf-editor/lib/python-bridge.ts:165 | splitting separator-free parts joined gives the parts back |
| Strings.IntToDecimal | pdf_processor.py:201 | the decimal text of an integer, with "-" for negatives |
| NumberFacts.JsNumberOfIntegerText | pdf-editor/app/api/pdf/replace-text/route.ts:19 | `Number(String(i))` is i |
| Numbers.JsParseInt | pdf-editor/app/api/pdf/add-image/route.ts:14 | NaN or a whole number; which one is stated by NumberFacts.JsParseIntOfIntegerText |
| Numbers.JsParseFloat | pdf-editor/app/api/pdf/add-image/route.ts:12-13 | NaN iff after white space and a sign there is neither a digit, ".digit" nor "Infinity"; the values are stated by the NumberFacts.JsParseFloat lemmas |
| Numbers.NumberToString | pdf-editor/lib/python-bridge.ts:119-120 | whole numbers below 10^21 in magnitude print as their decimal text; other finite numbers in that range hold a '.' and no 'e'; from 10^21 up and below 10^-6 the text holds an 'e' and ends in the exponent part "e±N" of the value's decimal exponent; a leading '-' iff negative; NaN and the infinities hold a letter |
| Numbers.PyParseInt | scripts/pdf_api.py:49 | accepts only integer characters |
| Numbers.PyIntOfIntegerText | scripts/pdf_api.py:49 | `int(str(i))` is i |
| Numbers.PyIntRejectsNonIntegerText | scripts/pdf_api.py:49-51 | the text of a JavaScript number that does not print as an integer (NaN, an infinity, a non-whole value, a whole value of 10^21 or more) is refused by `int()` |
| Numbers.PyParseFloat | scripts/pdf_api.py:423 | blank text is not a float; a finite result comes from a stripped, unsigned body whose underscores each stand between two digits and which is a decimal literal once they are dropped |
| Numbers.JsStringToNumber | pdf-editor/app/api/pdf/replace-text/route.ts:19 | blank text is 0; the result is +Infinity iff the trimmed text is "Infinity" or "+Infinity", and -Infinity iff it is "-Infinity" |
| Numbers.IntegerToString | pdf-editor/lib/python-bridge.ts:165 | an integer below 10^21 in magnitude prints as its decimal text |
| Numbers.DecimalExponent | pdf-editor/lib/python-bridge.ts:119-120 | the exponent `toString` writes: scaled by ten to its negation the value lies in [1, 10), and it is non-negative iff the value is at least 1 |
| Numbers.ForeignCharacter | pdf-editor/app/api/pdf/delete-pages/route.ts:25 | the text of a number that does not print as an integer holds a character that is neither a comma nor one `int()` accepts |
| Numbers.PyIntOfDigits | scripts/pdf_api.py:49 | text that is, inside white space and after an optional sign, a run of digits reads as their value under that sign |
| NumberFacts.JsNumberIgnoresSpace | pdf-editor/app/api/pdf/replace-text/route.ts:19 | white space around the text does not change what `Number` makes of it |
| NumberFacts.JsNumberOfDigitText | pdf-editor/app/api/pdf/replace-text/route.ts:19 | trimmed text starting with a digit reads as a "0x"/"0o"/"0b" literal when it is one, else as a decimal literal, else NaN |
| NumberFacts.JsNumberOfRadixText | pdf-editor/app/api/pdf/replace-text/route.ts:19 | an unsigned "0x", "0o" or "0b" literal inside white space reads as its value in base 16, 8 or 2 |
| NumberFacts.SignedRadixIsNaN | pdf-editor/app/api/pdf/replace-text/route.ts:19 | a sign in front of a "0x", "0o" or "0b" literal makes the result NaN |
| NumberFacts.SignedRadixIsNotDecimal | pdf-editor/app/api/pdf/replace-text/route.ts:19 | a sign, "0" and a radix mark do not start a decimal literal |
| NumberFacts.HexExample | pdf-editor/app/api/pdf/replace-text/route.ts:19 | `Number(" 0x1A ")` is 26 |
| NumberFacts.OctalExample | pdf-editor/app/api/pdf/replace-text/route.ts:19 | `Number("0o17")` is 15 |
| NumberFacts.BinaryExample | pdf-editor/app/api/pdf/replace-text/route.ts:19 | `Number("0b101")` is 5 |
| NumberFacts.SignedHexExample | pdf-editor/app/api/pdf/replace-text/route.ts:19 | `Number("-0x1A")` is NaN |
| NumberFacts.JsParseIntOfIntegerText | pdf-editor/app/api/pdf/add-image/route.ts:14 | `parseInt` of an integer's decimal text, followed by anything but a digit or an "x", is that integer |
| NumberFacts.JsParseFloatOfIntegerText | pdf-editor/app/api/pdf/add-image/route.ts:12-13 | `parseFloat` of an integer's decimal text, followed by anything but a digit, a point or an exponent mark, is that integer |
| NumberFacts.JsParseFloatOfWhole | pdf-editor/app/api/pdf/add-image/route.ts:12-13 | a run of digits that no point or exponent continues reads as its value under the text's sign |
| NumberFacts.JsParseFloatOfDecimalText | pdf-editor/app/api/pdf/add-image/route.ts:12-13 | `parseFloat(w + "." + f)` is w plus f over ten to the number of digits of f |
| NumberFacts.JsParseFloatOfPoint | pdf-editor/app/api/pdf/add-image/route.ts:12-13 | digits, a point and digits read as the whole part plus the fraction they write |
| NumberFacts.ExponentRange | pdf-editor/lib/python-bridge.ts:119-120 | the exponent written in exponent notation is 21 or more, or -7 or less |
| NumberFacts.ToStringExamples | pdf-editor/lib/python-bridge.ts:119-120 | 1.5 prints as "1.5", 10^21 as "1e+21" and 10^-7 as "1e-7" |
| NumberFacts.SingleDigitExponentText | pdf-editor/lib/python-bridge.ts:119-120 | a positive value in exponent notation whose significand is exactly one prints as "1" and its exponent part |
| NumberFacts.PyFloatOfIntegerText | scripts/pdf_api.py:423 | `float(str(i))` is i |
| NumberFacts.PyFloatOfDecimalPieces | scripts/pdf_api.py:423 | text whose stripped, unsigned part is a decimal literal (not a word) reads as its value under the sign |
| NumberFacts.PyFloatOfTrimmedDecimal | scripts/pdf_api.py:423 | an unpadded decimal literal starting with a digit reads as its value |
| NumberFacts.PyFloatOfInfinityWord | scripts/pdf_api.py:423 | "inf" or "infinity" in any case, inside white space and after an optional sign, is the infinity of that sign |
| NumberFacts.PyFloatOfNanWord | scripts/pdf_api.py:423 | "nan" in any case, inside white space and after an optional sign, is NaN |
| NumberFacts.PyFloatOfWords | scripts/pdf_api.py:423 | "inf" and "+INF" are +infinity, " -Infinity " is -infinity, "nan" is NaN |
| NumberFacts.PyFloatOfUnderscoredText | scripts/pdf_api.py:423 | "1_000.5" reads as 1000.5 |
| NumberFacts.UnderscoredValue | scripts/pdf_api.py:423 | the literal "1_000.5" has the value 1000.5 once its underscore, which stands between digits, is dropped |

## Left out

- PyMuPDF is not part of this model: drawing text and images, search, redaction annotations, `insert_pdf`, `save` and metadata. A page is an opaque value with a log of the edits asked of it, and page search is a parameter.
- Floating-point rounding: JavaScript and Python numbers are exact rationals, plus NaN and the infinities. Geometry, font sizes and colours are carried as values and not interpreted, so the `add_image` rectangle arithmetic (pdf_processor.py:162-167) is not modelled.
- The first `search_text` of pdf_processor.py is shadowed by the second. The second `search_text`, `replace_text` and `get_info` are left out too. So is the search endpoint of scripts/pdf_api.py, which calls `search_text` with keywords it does not accept.
- `get_info` and the get-info endpoints in both services, and `getPDFInfo` in the bridge: they only read PyMuPDF metadata.
- The bridge's `searchPdfText` is modelled by its form only. Its fetch and error handling repeat `postPdf`'s and are not modelled separately.
- Transport: `fetch`, FormData encoding, `request.json()` and the FastAPI form decoding are not modelled. A route receives its body already parsed, and a service its fields as text.
- A file sent in a text form field is not modelled.
- `_mk_workdir`, `_save_upload` and the temporary directories are file-system plumbing with no logic of their own.
- The `PDF_API_BASE_URL` environment check and the choice between Supabase and local storage are not modelled. The base URL and the backend are parameters.
- Storage: the adapters' own error texts are stand-in constants (`NotStored`, `UploadRefused`). So are the directory-listing failure and the `TypeError` of destructuring a null body. Which call fails is a parameter.
- `withSimplePdfOperation`, `cleanupOldPDFsSupabase`, the client's JSON methods, and the download, upload and cleanup route handlers are I/O glue. Of the upload route, only its name format is modelled.
- The `except Exception` paths of the service endpoints, which answer 500 for a PyMuPDF failure, are not modelled.
- EditorApi.DeletePagesReply: an unparsable page list is the 500 FastAPI gives for the uncaught `ValueError`, and its body is not modelled.
- Header names are compared exactly; HTTP's case-insensitive matching is not modelled.
- AddImageRoute.Post: the UUID is assumed to be a fresh random UUID. The Supabase upload refuses a name that already exists, so the collision case appears only as a refused upload.
- The UI, pdfedit.py, scripts/cleanup-cron.ts and the console logging are left out.
- Numbers.PyParseInt: only the ASCII digits 0-9 are digits. Python's `int()` also accepts the other Unicode decimal digits (Arabic-Indic or full-width ones, say), which the model refuses.
- Numbers.PyParseFloat: only the ASCII digits 0-9 are digits, as for `int()`; Python's `float()` also accepts the other Unicode decimal digits.
- Numbers.JsStringToNumber, Numbers.JsParseFloat, Numbers.PyParseFloat: a value is the exact rational the text writes. Rounding to the nearest double, overflow to an infinity and underflow to zero are not modelled.
- Numbers.NumberToString: the digits written are those of the exact value, up to twenty after the point. JavaScript writes the shortest digit string that reads back as the same double, so the two agree only on values that are short in decimal.
- SearchTextRoute.MatchCountMessage, PythonBridge.IntegerListText, PythonBridge.PageListWireRoundTrip, ReplaceTextRoute.RectTextRoundTrip: stated for whole numbers below 10^21 in magnitude, because JavaScript writes larger ones in exponent notation ("1e+21"), which neither `Number` round-trips as an integer text nor `int()` accepts; `Numbers.PyIntRejectsNonIntegerText` states what happens to those.
- PythonBridge.PostPdf: the message of the `TypeError` thrown when a body is read a second time depends on the runtime. The model uses the text of Node's fetch; all it relies on is that the message does not contain "fetch".
- PdfProcessor.DeleteResult, PdfProcessor.ExtractResult, PdfApi.DeleteReply, PdfApi.ExtractReply, EditorApi.DeletePagesReply, EditorApi.ExtractPagesReply: a request that leaves no page (every page deleted, or an empty extract list) is modelled as a success with a zero-page document. PyMuPDF refuses to save a document without pages. In pdf_processor.py the `except Exception` turns that refusal into `success: False`, which scripts/pdf_api.py answers with 400. In pdf-editor/scripts/api.py it is uncaught and answers 500. The model does not capture either answer.
- PdfProcessor.PyStrListRepr: writes each path between single quotes. Python's `repr` switches to double quotes, or escapes, for a string holding a quote or a backslash, which the model does not do; the error text differs only for such paths.

## Findings

| source | as written | input that shows it | evidently intended | confidence | as-written member | corrected member |
|---|---|---|---|---|---|---|
| pdf-editor/lib/python-bridge.ts:67-75 | on an error answer, `postPdf` first calls `response.json()`. When the body is not JSON, that call has already consumed the body, so the fallback `response.text()` throws a `TypeError` ("Body is unusable"). That error has no "fetch" in its message, so the catch rethrows it, and the route answers 500 with the runtime's message | the editor service's plain-text answer to a page out of range: status 400, body "Invalid page number: 7" (pdf-editor/scripts/api.py:35-39) | read the body once and hand `ensureOk` the text when it is not JSON, so the caller sees 400 "Invalid page number: 7" | not executed | PythonBridge.PlainTextErrorAnswers500, PythonBridge.InvalidPageAnswer | PythonBridge.PostPdfReadingTextOnce, PythonBridge.OutageOnlyFromFetch |
