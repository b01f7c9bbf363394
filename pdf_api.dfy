/** `scripts/pdf_api.py`: the FastAPI service in front of `PDFProcessor`. Its
    own logic is the decoding of comma-separated form fields, the mapping of
    a result dictionary to an HTTP answer (status, headers, download name)
    and the pre-checks of `merge` and `redact-text`. */
module PdfApi {
  import opened Wrappers
  import opened Strings
  import opened Numbers
  import opened Pages
  import opened PdfProcessor
  import NumberFacts

  /** A file answer (`FileResponse`) or an `HTTPException`. */
  datatype ApiReply =
    | FileReply(pages: seq<Page>, downloadName: string, headers: seq<(string, string)>)
    | HttpError(status: int, detail: string)

  // ---------------------------------------------------------------------
  // Comma-separated lists

  /** A field made of white space only: exactly the fields that strip to
      nothing (`BlankIsEmptyOnceStripped`), which `if item.strip()` skips. */
  predicate IsBlank(field: string) {
    forall i :: 0 <= i < |field| ==> IsPySpace(field[i])
  }

  lemma {:induction false} BlankIsEmptyOnceStripped(field: string)
    ensures IsBlank(field) <==> PyStrip(field) == ""
  {
    if !IsBlank(field) {
      var k :| 0 <= k < |field| && !IsPySpace(field[k]);
      TrimKeeps(field, PySpaces, field[k]);
    }
  }

  /** The fields that are not blank once stripped, in order. */
  function NonBlank(fields: seq<string>): (r: seq<string>)
    ensures |r| <= |fields|
    ensures forall i :: 0 <= i < |r| ==> !IsBlank(r[i]) && r[i] in fields
  {
    if fields == [] then []
    else (if IsBlank(fields[0]) then [] else [fields[0]]) + NonBlank(fields[1..])
  }

  lemma {:induction false} NonBlankAppend(A: seq<string>, B: seq<string>)
    ensures NonBlank(A + B) == NonBlank(A) + NonBlank(B)
  {
    if A != [] {
      var head := if IsBlank(A[0]) then [] else [A[0]];
      assert (A + B)[0] == A[0] && (A + B)[1..] == A[1..] + B;
      assert NonBlank(A + B) == head + NonBlank(A[1..] + B);
      NonBlankAppend(A[1..], B);
      assert NonBlank(A) == head + NonBlank(A[1..]);
    } else {
      assert A + B == B;
    }
  }

  /** Converts every item with `f`, as a Python list comprehension does;
      stops at the first item `f` refuses (the one that raises). */
  function ParseAll<T>(items: seq<string>, f: string -> Option<T>): (r: Result<seq<T>, nat>)
    ensures r.Success? <==> forall i :: 0 <= i < |items| ==> f(items[i]).Some?
    ensures r.Success? ==> |r.value| == |items| && forall i :: 0 <= i < |items| ==> f(items[i]) == Some(r.value[i])
    ensures r.Failure? ==> r.error < |items| && f(items[r.error]).None? && forall i :: 0 <= i < r.error ==> f(items[i]).Some?
  {
    if items == [] then Success([])
    else match f(items[0])
      case None => Failure(0)
      case Some(v) =>
        match ParseAll(items[1..], f)
        case Success(rest) => Success([v] + rest)
        case Failure(k) => Failure(k + 1)
  }

  /** `int(item.strip())`. */
  function FieldInt(item: string): Option<int> {
    PyParseInt(PyStrip(item))
  }

  function InvalidIntListMessage(fieldName: string): string {
    "Invalid integer list for '" + fieldName + "'."
  }

  /** `_parse_int_list(raw, field_name)`: the integers of the non-blank
      comma fields, in order, blank fields skipped; a non-blank field that is
      not an integer makes the whole list a 400 naming the field. */
  function ParseIntList(raw: string, fieldName: string): (r: Result<seq<int>, ApiReply>)
    ensures var fields := NonBlank(Split(raw, ','));
      && (r.Success? <==> forall i :: 0 <= i < |fields| ==> FieldInt(fields[i]).Some?)
      && (r.Success? ==> |r.value| == |fields| && forall i :: 0 <= i < |fields| ==> FieldInt(fields[i]) == Some(r.value[i]))
      && (r.Failure? ==> r.error == HttpError(400, InvalidIntListMessage(fieldName)))
  {
    match ParseAll(NonBlank(Split(raw, ',')), FieldInt)
    case Success(v) => Success(v)
    case Failure(_) => Failure(HttpError(400, InvalidIntListMessage(fieldName)))
  }

  /** `_parse_string_list(raw)`: the stripped non-blank comma fields, in
      order. No entry is empty, padded or holds a comma. */
  function ParseStringList(raw: string): (r: seq<string>)
    ensures forall i :: 0 <= i < |r| ==> r[i] != "" && PyStrip(r[i]) == r[i] && ',' !in r[i]
  {
    var fields := NonBlank(Split(raw, ','));
    StrippedFieldsClean(Split(raw, ','), fields);
    seq(|fields|, i requires 0 <= i < |fields| => PyStrip(fields[i]))
  }

  lemma StrippedFieldsClean(parts: seq<string>, fields: seq<string>)
    requires forall i :: 0 <= i < |parts| ==> ',' !in parts[i]
    requires fields == NonBlank(parts)
    ensures forall i :: 0 <= i < |fields| ==>
      var t := PyStrip(fields[i]);
      t != "" && PyStrip(t) == t && ',' !in t
  {
    forall i | 0 <= i < |fields|
      ensures var t := PyStrip(fields[i]); t != "" && PyStrip(t) == t && ',' !in t
    {
      var j :| 0 <= j < |parts| && parts[j] == fields[i];
      StrippedFieldClean(parts[j]);
    }
  }

  lemma {:induction false} StrippedFieldClean(f: string)
    requires ',' !in f && !IsBlank(f)
    ensures var t := PyStrip(f); t != "" && PyStrip(t) == t && ',' !in t
  {
    PyStripIdempotent(f);
    BlankIsEmptyOnceStripped(f);
    if ',' in PyStrip(f) {
      TrimWithin(f, PySpaces, ',');
    }
  }

  /** The text of an integer holds no comma and no white space. */
  lemma IntegerTextIsField(i: int)
    ensures ',' !in IntToDecimal(i)
    ensures PyStrip(IntToDecimal(i)) == IntToDecimal(i) && !IsBlank(IntToDecimal(i))
  {
    var t := IntToDecimal(i);
    var n: nat := if i < 0 then -i else i;
    var d := NatToDecimal(n);
    assert t[|t| - 1] == d[|d| - 1];
    assert Trimmed(t, PySpaces);
    assert forall k :: 0 <= k < |t| ==> IsDigit(t[k]) || t[k] == '-';
  }

  function IntegerTexts(L: seq<int>): (r: seq<string>)
    ensures |r| == |L|
    ensures forall i :: 0 <= i < |L| ==> r[i] == IntToDecimal(L[i])
  {
    seq(|L|, i requires 0 <= i < |L| => IntToDecimal(L[i]))
  }

  /** Round trip with the TypeScript bridge: for any list of integers,
      `_parse_int_list(L.join(','))` is `L`. */
  lemma IntListRoundTrip(L: seq<int>, fieldName: string)
    ensures ParseIntList(Join(IntegerTexts(L), ','), fieldName) == Success(L)
  {
    var parts := IntegerTexts(L);
    forall i | 0 <= i < |L| ensures ',' !in parts[i] && !IsBlank(parts[i]) {
      IntegerTextIsField(L[i]);
    }
    if L == [] {
      assert Split(Join(parts, ','), ',') == [""];
      assert NonBlank([""]) == [];
    } else {
      SplitJoin(parts, ',');
      AllFieldsKept(parts);
    }
    assert NonBlank(Split(Join(parts, ','), ',')) == parts;
    ParseAllOfIntegerTexts(L);
  }

  lemma ParseAllOfIntegerTexts(L: seq<int>)
    ensures ParseAll(IntegerTexts(L), FieldInt) == Success(L)
  {
    var parts := IntegerTexts(L);
    forall i | 0 <= i < |L| ensures FieldInt(parts[i]) == Some(L[i]) {
      IntegerTextIsField(L[i]);
      PyIntOfIntegerText(L[i]);
    }
    var r := ParseAll(parts, FieldInt);
    assert r.Success?;
    assert r.value == L;
  }

  lemma {:induction false} AllFieldsKept(parts: seq<string>)
    requires forall i :: 0 <= i < |parts| ==> !IsBlank(parts[i])
    ensures NonBlank(parts) == parts
  {
    if parts != [] {
      var tail := parts[1..];
      forall i | 0 <= i < |tail| ensures !IsBlank(tail[i]) {
        assert tail[i] == parts[i + 1];
      }
      AllFieldsKept(tail);
      assert !IsBlank(parts[0]);
      assert NonBlank(parts) == [parts[0]] + NonBlank(tail);
      assert parts == [parts[0]] + tail;
    }
  }


  /** `s.split(',')` on text ending in a comma: one more, empty field. */
  lemma {:induction false} SplitTrailingComma(s: string)
    ensures Split(s + [','], ',') == Split(s, ',') + [""]
  {
    if s == [] {
      assert [','][1..] == [];
      assert Split([','], ',') == [""] + Split([], ',');
    } else {
      assert (s + [','])[1..] == s[1..] + [','];
      SplitTrailingComma(s[1..]);
    }
  }

  /** A trailing comma is ignored, as is any blank field. */
  lemma TrailingCommaIgnored(raw: string, fieldName: string)
    ensures ParseIntList(raw + [','], fieldName) == ParseIntList(raw, fieldName)
    ensures ParseStringList(raw + [',']) == ParseStringList(raw)
  {
    SplitTrailingComma(raw);
    NonBlankAppend(Split(raw, ','), [""]);
    assert NonBlank([""]) == [];
    assert NonBlank(Split(raw, ',')) + [] == NonBlank(Split(raw, ','));
  }

  /** Round trip for strings: `_parse_string_list(T.join(','))` is `T`
      exactly when every entry is non-empty, holds no comma and has no
      surrounding white space. */
  lemma StringListRoundTrip(T: seq<string>)
    ensures ParseStringList(Join(T, ',')) == T <==>
      forall i :: 0 <= i < |T| ==> T[i] != "" && ',' !in T[i] && PyStrip(T[i]) == T[i]
  {
    if forall i :: 0 <= i < |T| ==> T[i] != "" && ',' !in T[i] && PyStrip(T[i]) == T[i] {
      CleanListRoundTrip(T);
    }
  }

  /** The "if" half: clean entries come back unchanged. */
  lemma CleanListRoundTrip(T: seq<string>)
    requires forall i :: 0 <= i < |T| ==> T[i] != "" && ',' !in T[i] && PyStrip(T[i]) == T[i]
    ensures ParseStringList(Join(T, ',')) == T
  {
    if T == [] {
      assert Split(Join(T, ','), ',') == [""];
      assert NonBlank([""]) == [];
    } else {
      var raw := Join(T, ',');
      CleanFieldsKept(T);
      StripAllClean(T);
      ParseStringListOfFields(raw, T);
    }
  }

  lemma ParseStringListOfFields(raw: string, fields: seq<string>)
    requires NonBlank(Split(raw, ',')) == fields
    ensures ParseStringList(raw) == seq(|fields|, i requires 0 <= i < |fields| => PyStrip(fields[i]))
  {
  }

  /** Joining clean entries and splitting again gives every entry back as
      a non-blank field. */
  lemma CleanFieldsKept(T: seq<string>)
    requires |T| >= 1
    requires forall i :: 0 <= i < |T| ==> T[i] != "" && ',' !in T[i] && PyStrip(T[i]) == T[i]
    ensures NonBlank(Split(Join(T, ','), ',')) == T
  {
    SplitJoin(T, ',');
    forall i | 0 <= i < |T| ensures !IsBlank(T[i]) {
      assert PyStrip(T[i]) == T[i] != "";
    }
    AllFieldsKept(T);
  }

  /** Stripping entries that are already stripped changes nothing. */
  lemma StripAllClean(T: seq<string>)
    requires forall i :: 0 <= i < |T| ==> PyStrip(T[i]) == T[i]
    ensures seq(|T|, i requires 0 <= i < |T| => PyStrip(T[i])) == T
  {
  }

  // ---------------------------------------------------------------------
  // Result dictionary to HTTP answer

  /** `_ensure_success(result)`: the result itself when `success` holds;
      otherwise a 400 carrying its `error`, or "Operation failed." when it
      has none. */
  function EnsureSuccess(result: ProcResult): (r: Result<ProcResult, ApiReply>)
    ensures result.success <==> r.Success?
    ensures r.Success? ==> r.value == result
    ensures r.Failure? ==> r.error.HttpError? && r.error.status == 400
    ensures r.Failure? && result.error.Some? ==> r.error.detail == result.error.value
    ensures r.Failure? && result.error.None? ==> r.error.detail == "Operation failed."
  {
    if result.success then Success(result)
    else Failure(HttpError(400, result.error.GetOr("Operation failed.")))
  }

  predicate HasHeader(headers: seq<(string, string)>, name: string) {
    exists i :: 0 <= i < |headers| && headers[i].0 == name
  }

  /** The headers of `_file_result_response`: the message when it is a
      non-empty string, the removed count (in decimal) whenever the key is
      present. */
  function ResultHeaders(result: ProcResult): (h: seq<(string, string)>)
    ensures HasHeader(h, "X-Operation-Message") <==> result.message.Some? && result.message.value != ""
    ensures HasHeader(h, "X-Removed-Count") <==> result.removedCount.Some?
    ensures forall i :: 0 <= i < |h| && h[i].0 == "X-Operation-Message" ==> h[i].1 == result.message.value
    ensures forall i :: 0 <= i < |h| && h[i].0 == "X-Removed-Count" ==> h[i].1 == IntToDecimal(result.removedCount.value)
  {
    var m := ("X-Operation-Message", if result.message.Some? then result.message.value else "");
    var c := ("X-Removed-Count", if result.removedCount.Some? then IntToDecimal(result.removedCount.value) else "");
    assert m.0[2] != c.0[2];
    if result.message.Some? && result.message.value != "" then
      if result.removedCount.Some? then
        var h := [m, c];
        assert h[0].0 == m.0 && h[1].0 == c.0;
        h
      else
        var h := [m];
        assert h[0].0 == m.0;
        h
    else if result.removedCount.Some? then
      var h := [c];
      assert h[0].0 == c.0;
      h
    else []
  }

  /** `_file_result_response`: a failed result becomes its 400, a result
      without a saved file a 500, and otherwise the saved file with the
      headers above. */
  function FileResultResponse(result: ProcResult, downloadName: string): (r: ApiReply)
    ensures !result.success ==> r == EnsureSuccess(result).error
    ensures result.success && result.saved.None? ==> r == HttpError(500, "Expected output file was not produced.")
    ensures result.success && result.saved.Some? ==> r == FileReply(result.saved.value, downloadName, ResultHeaders(result))
  {
    match EnsureSuccess(result)
    case Failure(e) => e
    case Success(data) =>
      if data.saved.None? then HttpError(500, "Expected output file was not produced.")
      else FileReply(data.saved.value, downloadName, ResultHeaders(data))
  }

  /** `f"{op}-{pdf_file.filename or 'document'}.pdf"`. */
  function DownloadName(op: string, filename: Option<string>): (r: string)
    ensures |r| > |op| && r[..|op| + 1] == op + "-"
    ensures filename.Some? && filename.value != "" ==> r == op + "-" + filename.value + ".pdf"
    ensures filename.None? || filename.value == "" ==> r == op + "-document.pdf"
  {
    var name := if filename.Some? && filename.value != "" then filename.value else "document";
    op + "-" + name + ".pdf"
  }

  // ---------------------------------------------------------------------
  // Endpoints. `doc` is the uploaded PDF as PyMuPDF opens it.

  /** The headers of a result with a non-empty message and no count. */
  function MessageHeader(m: string): (h: seq<(string, string)>)
    ensures |h| == 1 && h[0] == ("X-Operation-Message", m)
  {
    [("X-Operation-Message", m)]
  }

  /** A failed result is a 400 carrying its error text. */
  lemma FailedReply(e: string, name: string)
    ensures FileResultResponse(Failed(e), name) == HttpError(400, e)
  {
  }

  /** A saved result with a non-empty message and no count is the saved
      file with exactly the message header. */
  lemma {:induction false} DoneReply(m: string, p: seq<Page>, name: string)
    requires m != ""
    ensures FileResultResponse(Done(m, None, p), name) == FileReply(p, name, MessageHeader(m))
  {
    var h := ResultHeaders(Done(m, None, p));
    assert HasHeader(h, "X-Operation-Message") && !HasHeader(h, "X-Removed-Count");
  }

  /** `POST /pdf/add-text`. */
  method AddTextEndpoint(doc: Document, text: string, page: int, filename: Option<string>) returns (r: ApiReply)
    modifies doc
    ensures r == FileResultResponse(AddTextResult(old(doc.pages), text, page), DownloadName("add-text", filename))
  {
    var result := AddText(doc, text, page);
    r := FileResultResponse(result, DownloadName("add-text", filename));
  }

  /** An add-text request for a page outside the document is a 400 naming
      the page; otherwise the answer is the document with that page edited,
      announced in the message header. */
  lemma AddTextReply(pages: seq<Page>, text: string, page: int, name: string)
    ensures !InRange(page, |pages|) ==>
      FileResultResponse(AddTextResult(pages, text, page), name) == HttpError(400, InvalidPageMessage(page))
    ensures InRange(page, |pages|) ==>
      FileResultResponse(AddTextResult(pages, text, page), name)
        == FileReply(pages[page := WithEdit(pages[page], TextInserted(text))], name,
                     MessageHeader("Text added to page " + IntToDecimal(page)))
  {
    if InRange(page, |pages|) {
      DoneReply("Text added to page " + IntToDecimal(page), pages[page := WithEdit(pages[page], TextInserted(text))], name);
    }
  }

  /** `POST /pdf/add-image`. The uploaded image is always saved, so it
      exists. */
  method AddImageEndpoint(doc: Document, imagePath: string, page: int, filename: Option<string>) returns (r: ApiReply)
    modifies doc
    ensures r == FileResultResponse(AddImageResult(old(doc.pages), imagePath, true, page), DownloadName("add-image", filename))
  {
    var result := AddImage(doc, imagePath, true, page);
    r := FileResultResponse(result, DownloadName("add-image", filename));
  }

  /** The add-image answers: a 400 for a page outside the document, or the
      document with that page edited. */
  lemma AddImageReply(pages: seq<Page>, imagePath: string, page: int, name: string)
    ensures !InRange(page, |pages|) ==>
      FileResultResponse(AddImageResult(pages, imagePath, true, page), name) == HttpError(400, InvalidPageMessage(page))
    ensures InRange(page, |pages|) ==>
      FileResultResponse(AddImageResult(pages, imagePath, true, page), name)
        == FileReply(pages[page := WithEdit(pages[page], ImageInserted(imagePath))], name,
                     MessageHeader("Image added to page " + IntToDecimal(page)))
  {
    if InRange(page, |pages|) {
      DoneReply("Image added to page " + IntToDecimal(page), pages[page := WithEdit(pages[page], ImageInserted(imagePath))], name);
    }
  }

  /** `POST /pdf/delete-pages`: the list is decoded before anything else. */
  method DeletePagesEndpoint(doc: Document, pageNumbers: string, filename: Option<string>) returns (r: ApiReply)
    modifies doc
    ensures ParseIntList(pageNumbers, "page_numbers").Failure? ==>
      r == HttpError(400, InvalidIntListMessage("page_numbers")) && doc.pages == old(doc.pages)
    ensures ParseIntList(pageNumbers, "page_numbers").Success? ==>
      r == FileResultResponse(DeleteResult(old(doc.pages), ParseIntList(pageNumbers, "page_numbers").value),
                              DownloadName("delete-pages", filename))
  {
    var indices := ParseIntList(pageNumbers, "page_numbers");
    if indices.Failure? {
      return indices.error;
    }
    var result := DeletePages(doc, indices.value);
    r := FileResultResponse(result, DownloadName("delete-pages", filename));
  }

  /** The delete-pages answers: a 400 listing the out-of-range indices, and
      for distinct in-range indices the unlisted pages in their order. */
  lemma DeleteReply(pages: seq<Page>, L: seq<int>, name: string)
    ensures !AllInRange(L, |pages|) ==>
      FileResultResponse(DeleteResult(pages, L), name) == HttpError(400, InvalidPagesMessage(InvalidPages(L, |pages|)))
    ensures NoDuplicates(L) && AllInRange(L, |pages|) ==>
      FileResultResponse(DeleteResult(pages, L), name)
        == FileReply(Survivors(pages, set x | x in L), name, MessageHeader("Deleted " + IntToDecimal(|L|) + " pages"))
  {
    if NoDuplicates(L) && AllInRange(L, |pages|) {
      DistinctPagesDeleted(pages, L);
      DoneReply("Deleted " + IntToDecimal(|L|) + " pages", Survivors(pages, set x | x in L), name);
    }
  }

  /** `POST /pdf/reorder-pages`. */
  method ReorderPagesEndpoint(doc: Document, newOrder: string, filename: Option<string>) returns (r: ApiReply)
    modifies doc
    ensures ParseIntList(newOrder, "new_order").Failure? ==>
      r == HttpError(400, InvalidIntListMessage("new_order")) && doc.pages == old(doc.pages)
    ensures ParseIntList(newOrder, "new_order").Success? ==>
      r == FileResultResponse(ReorderResult(old(doc.pages), ParseIntList(newOrder, "new_order").value),
                              DownloadName("reorder-pages", filename))
  {
    var order := ParseIntList(newOrder, "new_order");
    if order.Failure? {
      return order.error;
    }
    var result := ReorderPages(doc, order.value);
    r := FileResultResponse(result, DownloadName("reorder-pages", filename));
  }

  /** The reorder-pages answers: the length is checked before the range,
      and a valid order answers the pages in that order. */
  lemma ReorderReply(pages: seq<Page>, L: seq<int>, name: string)
    ensures |L| != |pages| ==>
      FileResultResponse(ReorderResult(pages, L), name) == HttpError(400, OrderLengthMessage(|L|, |pages|))
    ensures |L| == |pages| && !AllInRange(L, |pages|) ==>
      FileResultResponse(ReorderResult(pages, L), name) == HttpError(400, InvalidPagesMessage(InvalidPages(L, |pages|)))
    ensures |L| == |pages| && AllInRange(L, |pages|) ==>
      FileResultResponse(ReorderResult(pages, L), name)
        == FileReply(Selected(pages, L), name, MessageHeader("Reordered " + IntToDecimal(|L|) + " pages"))
  {
    if |L| == |pages| && AllInRange(L, |pages|) {
      DoneReply("Reordered " + IntToDecimal(|L|) + " pages", Selected(pages, L), name);
    }
  }

  /** `POST /pdf/extract-pages`. */
  method ExtractPagesEndpoint(doc: Document, pageNumbers: string, filename: Option<string>) returns (r: ApiReply)
    modifies doc
    ensures ParseIntList(pageNumbers, "page_numbers").Failure? ==>
      r == HttpError(400, InvalidIntListMessage("page_numbers")) && doc.pages == old(doc.pages)
    ensures ParseIntList(pageNumbers, "page_numbers").Success? ==>
      r == FileResultResponse(ExtractResult(old(doc.pages), ParseIntList(pageNumbers, "page_numbers").value),
                              DownloadName("extract-pages", filename))
  {
    var indices := ParseIntList(pageNumbers, "page_numbers");
    if indices.Failure? {
      return indices.error;
    }
    var result := ExtractPages(doc, indices.value);
    r := FileResultResponse(result, DownloadName("extract-pages", filename));
  }

  /** The extract-pages answers: a 400 listing the out-of-range indices, or
      the listed pages in the listed order. */
  lemma ExtractReply(pages: seq<Page>, L: seq<int>, name: string)
    ensures !AllInRange(L, |pages|) ==>
      FileResultResponse(ExtractResult(pages, L), name) == HttpError(400, InvalidPagesMessage(InvalidPages(L, |pages|)))
    ensures AllInRange(L, |pages|) ==>
      FileResultResponse(ExtractResult(pages, L), name)
        == FileReply(Selected(pages, L), name, MessageHeader("Extracted " + IntToDecimal(|L|) + " pages"))
  {
    if AllInRange(L, |pages|) {
      DoneReply("Extracted " + IntToDecimal(|L|) + " pages", Selected(pages, L), name);
    }
  }

  /** `POST /pdf/merge`: fewer than two uploads is a 400 before anything is
      saved; the saved uploads all exist, so the merge succeeds. */
  method MergeEndpoint(paths: seq<string>, files: map<string, seq<Page>>) returns (r: ApiReply)
    requires forall i :: 0 <= i < |paths| ==> paths[i] in files
    ensures |paths| < 2 ==> r == HttpError(400, "At least two PDF files are required.")
    ensures |paths| >= 2 ==>
      r == FileReply(MergedPages(paths, files), "merged.pdf", MessageHeader("Merged " + IntToDecimal(|paths|) + " PDFs"))
  {
    if |paths| < 2 {
      return HttpError(400, "At least two PDF files are required.");
    }
    var result := MergePdfs(paths, files);
    DoneReply("Merged " + IntToDecimal(|paths|) + " PDFs", MergedPages(paths, files), "merged.pdf");
    r := FileResultResponse(result, "merged.pdf");
  }

  /** `POST /pdf/redact-text`: a target list with no non-blank entry is a
      400; otherwise the count of hits goes out in `X-Removed-Count`. */
  method RedactTextEndpoint(doc: Document, targets: string, search: Search, filename: Option<string>) returns (r: ApiReply)
    modifies doc
    ensures ParseStringList(targets) == [] ==>
      r == HttpError(400, "At least one target string is required.") && doc.pages == old(doc.pages)
    ensures ParseStringList(targets) != [] ==>
      r == FileResultResponse(RedactResult(old(doc.pages), ParseStringList(targets), search), DownloadName("redact-text", filename))
  {
    var targetList := ParseStringList(targets);
    if targetList == [] {
      return HttpError(400, "At least one target string is required.");
    }
    var result := RedactText(doc, targetList, search);
    r := FileResultResponse(result, DownloadName("redact-text", filename));
  }

  /** A redaction always answers the redacted document, with the number of
      hits in decimal in `X-Removed-Count`. */
  lemma RedactReply(pages: seq<Page>, T: seq<string>, search: Search, name: string)
    ensures var r := FileResultResponse(RedactResult(pages, T, search), name);
      && r.FileReply? && r.pages == RedactedPages(pages, T, search)
      && HasHeader(r.headers, "X-Removed-Count")
      && forall i :: 0 <= i < |r.headers| && r.headers[i].0 == "X-Removed-Count" ==>
           r.headers[i].1 == IntToDecimal(TotalHits(pages, T, search))
  {
  }

  /** `float(value.strip())`. */
  function FieldFloat(value: string): Option<Double> {
    PyParseFloat(PyStrip(value))
  }

  /** `[float(value.strip()) for value in rect.split(",")]`; on the first
      value that is not a number, the 400 the endpoint answers with. */
  function ParseRectValues(values: seq<string>): (r: Result<seq<Double>, ApiReply>)
    ensures r.Success? <==> forall i :: 0 <= i < |values| ==> FieldFloat(values[i]).Some?
    ensures r.Success? ==>
      |r.value| == |values| && forall i :: 0 <= i < |values| ==> FieldFloat(values[i]) == Some(r.value[i])
    ensures r.Failure? ==> exists k :: (
      && 0 <= k < |values| && FieldFloat(values[k]).None?
      && (forall i :: 0 <= i < k ==> FieldFloat(values[i]).Some?)
      && r.error == HttpError(400, InvalidRectMessage(values[k])))
  {
    match ParseAll(values, FieldFloat)
    case Success(v) => Success(v)
    case Failure(k) => Failure(HttpError(400, InvalidRectMessage(values[k])))
  }

  /** Whole numbers joined with commas, as the front end sends a rect, are
      read back as those numbers. */
  lemma RectOfIntegerTexts(K: seq<int>)
    requires |K| >= 1
    ensures ParseRectValues(Split(Join(IntegerTexts(K), ','), ','))
              == Success(seq(|K|, i requires 0 <= i < |K| => Finite(K[i] as real)))
  {
    var parts := IntegerTexts(K);
    forall i | 0 <= i < |K| ensures ',' !in parts[i] {
      IntegerTextIsField(K[i]);
    }
    SplitJoin(parts, ',');
    ParseAllOfRectTexts(K);
  }

  lemma ParseAllOfRectTexts(K: seq<int>)
    ensures ParseAll(IntegerTexts(K), FieldFloat)
              == Success(seq(|K|, i requires 0 <= i < |K| => Finite(K[i] as real)))
  {
    RectTextsRead(K);
    ParseAllOfValues(IntegerTexts(K), FieldFloat, seq(|K|, i requires 0 <= i < |K| => Finite(K[i] as real)));
  }

  /** Items that each convert to the matching value convert to the list of
      those values. */
  lemma ParseAllOfValues<T>(items: seq<string>, f: string -> Option<T>, v: seq<T>)
    requires |v| == |items| && forall i :: 0 <= i < |items| ==> f(items[i]) == Some(v[i])
    ensures ParseAll(items, f) == Success(v)
  {
    var r := ParseAll(items, f);
    assert r.Success?;
    assert r.value == v;
  }

  lemma RectTextsRead(K: seq<int>)
    ensures forall i :: 0 <= i < |K| ==> FieldFloat(IntegerTexts(K)[i]) == Some(Finite(K[i] as real))
  {
    forall i | 0 <= i < |K| ensures FieldFloat(IntegerTexts(K)[i]) == Some(Finite(K[i] as real)) {
      FieldFloatOfInteger(K[i]);
    }
  }

  /** `float(str(k).strip())` is `k`. */
  lemma FieldFloatOfInteger(k: int)
    ensures FieldFloat(IntToDecimal(k)) == Some(Finite(k as real))
  {
    IntegerTextStripped(k);
    NumberFacts.PyFloatOfIntegerText(k);
  }

  /** The first field `float` refuses is quoted, stripped, in the 400. */
  lemma RectWordRefused()
    ensures ParseRectValues(["1", " x "])
              == Failure(HttpError(400, "Invalid rect: could not convert string to float: 'x'"))
  {
    FieldFloatOfOne();
    PaddedWordRefused();
    var r := ParseAll(["1", " x "], FieldFloat);
    assert r.Failure? && r.error == 1;
  }

  lemma FieldFloatOfOne()
    ensures FieldFloat("1") == Some(Finite(1.0))
  {
    assert IntToDecimal(1) == "1";
    FieldFloatOfInteger(1);
  }

  lemma PaddedWordRefused()
    ensures FieldFloat(" x ").None?
    ensures InvalidRectMessage(" x ") == "Invalid rect: could not convert string to float: 'x'"
  {
    PaddedWord();
    WordIsNoFloat();
  }

  lemma PaddedWord()
    ensures PyStrip(" x ") == "x" && PyStrip("x") == "x"
  {
    PaddedWordText();
    TrimPadded(" ", "x", PySpaces);
    assert Trimmed("x", PySpaces);
  }

  lemma PaddedWordText()
    ensures " " + "x" + " " == " x "
  {
  }

  lemma WordIsNoFloat()
    ensures PyFloatOfStripped("x").None?
  {
    assert Unsigned("x") == "x";
    assert LowerAscii("x") == "x";
  }

  /** The 400 for a rect field `float` refuses: the `ValueError`'s text,
      which quotes the stripped field. */
  function InvalidRectMessage(value: string): string {
    "Invalid rect: could not convert string to float: " + PyStrRepr(PyStrip(value))
  }

  /** `POST /pdf/replace-text`: a rect field that does not decode is a 400;
      one that decodes to other than four values is the processor's 400. */
  method ReplaceTextEndpoint(doc: Document, page: int, rect: string, replacement: Option<string>, filename: Option<string>)
    returns (r: ApiReply)
    modifies doc
    ensures ParseRectValues(Split(rect, ',')).Failure? ==>
      r == ParseRectValues(Split(rect, ',')).error && doc.pages == old(doc.pages)
    ensures ParseRectValues(Split(rect, ',')).Success? ==>
      r == FileResultResponse(ReplaceResult(old(doc.pages), page, ParseRectValues(Split(rect, ',')).value, replacement),
                              DownloadName("replace-text", filename))
  {
    var values := ParseRectValues(Split(rect, ','));
    if values.Failure? {
      return values.error;
    }
    var result := ReplaceTextInstance(doc, page, values.value, replacement);
    r := FileResultResponse(result, DownloadName("replace-text", filename));
  }

  /** The replace-text answers: a 400 for a rectangle of other than four
      numbers, then for a page outside the document; otherwise the edited
      document, whose message says whether text was written. */
  lemma ReplaceReply(pages: seq<Page>, page: int, coords: seq<Double>, replacement: Option<string>, name: string)
    ensures |coords| != 4 ==>
      FileResultResponse(ReplaceResult(pages, page, coords, replacement), name) == HttpError(400, "rect must contain 4 values")
    ensures |coords| == 4 && !InRange(page, |pages|) ==>
      FileResultResponse(ReplaceResult(pages, page, coords, replacement), name) == HttpError(400, InvalidPageMessage(page))
    ensures |coords| == 4 && InRange(page, |pages|) ==>
      var r := FileResultResponse(ReplaceResult(pages, page, coords, replacement), name);
      && r.FileReply? && |r.pages| == |pages|
      && r.headers == MessageHeader(if Writes(replacement) then "Replaced text" else "Removed text")
  {
    var res := ReplaceResult(pages, page, coords, replacement);
    if res.success {
      DoneReply(res.message.value, res.saved.value, name);
    }
  }
}
