/** `pdf-editor/scripts/api.py`: the second FastAPI service, which does its
    own page-list parsing inline. Unlike `scripts/pdf_api.py` it applies
    `int` to every comma field without dropping blank ones, answers bad page
    numbers with a plain-text 400, and splits redaction targets with a bare
    `split(",")`. An exception it does not catch becomes FastAPI's 500. */
module EditorApi {
  import opened Wrappers
  import opened Strings
  import opened Numbers
  import opened Pages
  import opened PdfProcessor
  import PdfApi

  /** The answers of this service. */
  datatype EditorReply =
    | PdfBytes(pages: seq<Page>, headers: seq<(string, string)>)
    | PlainError(status: int, content: string)
    | ServerError

  function OperationHeader(m: string): seq<(string, string)> {
    [("x-operation-message", m)]
  }

  // ---------------------------------------------------------------------
  // Page lists

  /** `int(p)`, which itself ignores surrounding white space. */
  function IntOf(p: string): Option<int> {
    PyParseInt(p)
  }

  /** `[int(p) for p in fields]`: one integer per field, in order, and
      `None` as soon as one field is not an integer. */
  function IntList(fields: seq<string>): (r: Option<seq<int>>)
    ensures r.Some? <==> forall i :: 0 <= i < |fields| ==> IntOf(fields[i]).Some?
    ensures r.Some? ==> |r.value| == |fields| && forall i :: 0 <= i < |fields| ==> IntOf(fields[i]) == Some(r.value[i])
  {
    var p := PdfApi.ParseAll(fields, IntOf);
    if p.Success? then Some(p.value) else None
  }

  /** `[int(p) for p in raw.split(",")]`: blank fields are not skipped. */
  function RawIntList(raw: string): Option<seq<int>> {
    IntList(Split(raw, ','))
  }

  /** Any empty field (an empty list, a doubled or trailing comma) makes
      the whole list fail. */
  lemma EmptyFieldRejected(raw: string, k: nat)
    requires k < |Split(raw, ',')| && Split(raw, ',')[k] == ""
    ensures RawIntList(raw).None?
  {
    assert IntOf("").None?;
  }

  /** The bridge's encoding decodes back to the list, as long as the list
      is not empty. */
  lemma RawIntListRoundTrip(L: seq<int>)
    requires L != []
    ensures RawIntList(Join(PdfApi.IntegerTexts(L), ',')) == Some(L)
  {
    var parts := PdfApi.IntegerTexts(L);
    forall i | 0 <= i < |L| ensures ',' !in parts[i] {
      PdfApi.IntegerTextIsField(L[i]);
    }
    SplitJoin(parts, ',');
    IntegerTextsParse(L);
  }

  lemma IntegerTextsParse(L: seq<int>)
    ensures PdfApi.ParseAll(PdfApi.IntegerTexts(L), IntOf) == Success(L)
  {
    var parts := PdfApi.IntegerTexts(L);
    forall i | 0 <= i < |L| ensures IntOf(parts[i]) == Some(L[i]) {
      PyIntOfIntegerText(L[i]);
    }
    var r := PdfApi.ParseAll(parts, IntOf);
    assert r.value == L;
  }

  /** Where `scripts/pdf_api.py` ignores a trailing comma, this service
      fails. */
  lemma TrailingCommaRejected(L: seq<int>)
    ensures RawIntList(Join(PdfApi.IntegerTexts(L), ',') + [',']).None?
    ensures PdfApi.ParseIntList(Join(PdfApi.IntegerTexts(L), ',') + [','], "page_numbers") == Success(L)
  {
    var raw := Join(PdfApi.IntegerTexts(L), ',');
    PdfApi.SplitTrailingComma(raw);
    EmptyFieldRejected(raw + [','], |Split(raw, ',')|);
    PdfApi.TrailingCommaIgnored(raw, "page_numbers");
    PdfApi.IntListRoundTrip(L, "page_numbers");
  }

  // ---------------------------------------------------------------------
  // Edits of one page

  /** `POST /pdf/add-text`: a page outside the document is a 400 naming it;
      otherwise only that page changes. */
  function AddTextReply(pages: seq<Page>, text: string, page: int): (r: EditorReply)
    ensures !InRange(page, |pages|) ==> r == PlainError(400, InvalidPageMessage(page))
    ensures InRange(page, |pages|) ==>
      r.PdfBytes? && EditedOnly(pages, r.pages, page, TextInserted(text))
      && r.headers == OperationHeader("Text added successfully")
  {
    if page < 0 || page >= |pages| then PlainError(400, InvalidPageMessage(page))
    else PdfBytes(pages[page := WithEdit(pages[page], TextInserted(text))], OperationHeader("Text added successfully"))
  }

  method AddText(doc: Document, text: string, page: int) returns (r: EditorReply)
    modifies doc
    ensures r == AddTextReply(old(doc.pages), text, page)
    ensures doc.pages == if r.PdfBytes? then r.pages else old(doc.pages)
  {
    if page < 0 || page >= |doc.pages| {
      return PlainError(400, InvalidPageMessage(page));
    }
    doc.EditPage(page, TextInserted(text));
    r := PdfBytes(doc.pages, OperationHeader("Text added successfully"));
  }

  /** Both services refuse the same pages with the same message and make
      the same edit; only the success message differs. */
  lemma AddTextAsProcessor(pages: seq<Page>, text: string, page: int)
    ensures var r, p := AddTextReply(pages, text, page), AddTextResult(pages, text, page);
      && (r.PdfBytes? <==> p.success)
      && (r.PdfBytes? ==> r.pages == p.saved.value)
      && (!r.PdfBytes? ==> p.error == Some(r.content))
  {
  }

  /** `POST /pdf/add-image`: the same page check; `image` stands for the
      uploaded image. Its placement rectangle is not modelled. */
  function AddImageReply(pages: seq<Page>, image: string, page: int): (r: EditorReply)
    ensures !InRange(page, |pages|) ==> r == PlainError(400, InvalidPageMessage(page))
    ensures InRange(page, |pages|) ==>
      r.PdfBytes? && EditedOnly(pages, r.pages, page, ImageInserted(image))
      && r.headers == OperationHeader("Image added successfully")
  {
    if page < 0 || page >= |pages| then PlainError(400, InvalidPageMessage(page))
    else PdfBytes(pages[page := WithEdit(pages[page], ImageInserted(image))], OperationHeader("Image added successfully"))
  }

  method AddImage(doc: Document, image: string, page: int) returns (r: EditorReply)
    modifies doc
    ensures r == AddImageReply(old(doc.pages), image, page)
    ensures doc.pages == if r.PdfBytes? then r.pages else old(doc.pages)
  {
    if page < 0 || page >= |doc.pages| {
      return PlainError(400, InvalidPageMessage(page));
    }
    doc.EditPage(page, ImageInserted(image));
    r := PdfBytes(doc.pages, OperationHeader("Image added successfully"));
  }

  // ---------------------------------------------------------------------
  // Page-list operations

  /** `POST /pdf/delete-pages`: the raw list, then the range check listing
      the invalid indices, then deletion from the largest index down. A
      repeated index that runs past the end raises. */
  function DeletePagesReply(pages: seq<Page>, raw: string): (r: EditorReply)
    ensures RawIntList(raw).None? ==> r == ServerError
    ensures RawIntList(raw).Some? && !AllInRange(RawIntList(raw).value, |pages|) ==>
      r == PlainError(400, InvalidPagesMessage(InvalidPages(RawIntList(raw).value, |pages|)))
    ensures r.PdfBytes? ==>
      && RawIntList(raw).Some? && AllInRange(RawIntList(raw).value, |pages|)
      && |r.pages| == |pages| - |RawIntList(raw).value|
      && r.headers == OperationHeader("Deleted " + IntToDecimal(|RawIntList(raw).value|) + " pages")
  {
    match RawIntList(raw)
    case None => ServerError
    case Some(L) =>
      var invalid := InvalidPages(L, |pages|);
      if invalid != [] then PlainError(400, InvalidPagesMessage(invalid))
      else match DeleteEach(pages, SortDescending(L))
        case None => ServerError
        case Some(rest) => PdfBytes(rest, OperationHeader("Deleted " + IntToDecimal(|L|) + " pages"))
  }

  method DeletePages(doc: Document, raw: string) returns (r: EditorReply)
    modifies doc
    ensures r == DeletePagesReply(old(doc.pages), raw)
    ensures r.PdfBytes? ==> doc.pages == r.pages
    ensures r.PlainError? ==> doc.pages == old(doc.pages)
  {
    ghost var before := doc.pages;
    var parsed := RawIntList(raw);
    if parsed.None? {
      return ServerError;
    }
    var pages := parsed.value;
    var invalid := InvalidPages(pages, |doc.pages|);
    if invalid != [] {
      return PlainError(400, InvalidPagesMessage(invalid));
    }
    SortedInRange(pages, |doc.pages|);
    ghost var expected := DeleteEach(before, SortDescending(pages));
    var ok := doc.DeleteInOrder(SortDescending(pages));
    if !ok {
      assert expected.None?;
      return ServerError;
    }
    assert expected == Some(doc.pages);
    r := PdfBytes(doc.pages, OperationHeader("Deleted " + IntToDecimal(|pages|) + " pages"));
    assert r == DeletePagesReply(before, raw);
  }

  /** Distinct in-range indices delete exactly the listed pages; the
      others stay in their order. */
  lemma DeletePagesDistinct(pages: seq<Page>, raw: string)
    requires RawIntList(raw).Some?
    requires NoDuplicates(RawIntList(raw).value) && AllInRange(RawIntList(raw).value, |pages|)
    ensures var L := RawIntList(raw).value;
      DeletePagesReply(pages, raw)
        == PdfBytes(Survivors(pages, set x | x in L), OperationHeader("Deleted " + IntToDecimal(|L|) + " pages"))
  {
    DeletePagesRemovesListed(pages, RawIntList(raw).value);
  }

  /** `POST /pdf/reorder-pages`: the length is checked before the range. */
  function ReorderPagesReply(pages: seq<Page>, raw: string): (r: EditorReply)
    ensures RawIntList(raw).None? ==> r == ServerError
    ensures RawIntList(raw).Some? ==>
      var L := RawIntList(raw).value;
      && (|L| != |pages| ==> r == PlainError(400, OrderLengthMessage(|L|, |pages|)))
      && (|L| == |pages| && !AllInRange(L, |pages|) ==> r == PlainError(400, InvalidPagesMessage(InvalidPages(L, |pages|))))
      && (|L| == |pages| && AllInRange(L, |pages|) ==>
            r.PdfBytes? && |r.pages| == |pages| && (forall i :: 0 <= i < |pages| ==> r.pages[i] == pages[L[i]])
            && r.headers == OperationHeader("Reordered " + IntToDecimal(|L|) + " pages"))
  {
    match RawIntList(raw)
    case None => ServerError
    case Some(L) =>
      if |L| != |pages| then PlainError(400, OrderLengthMessage(|L|, |pages|))
      else
        var invalid := InvalidPages(L, |pages|);
        if invalid != [] then PlainError(400, InvalidPagesMessage(invalid))
        else PdfBytes(Selected(pages, L), OperationHeader("Reordered " + IntToDecimal(|L|) + " pages"))
  }

  method ReorderPages(doc: Document, raw: string) returns (r: EditorReply)
    modifies doc
    ensures r == ReorderPagesReply(old(doc.pages), raw)
    ensures doc.pages == if r.PdfBytes? then r.pages else old(doc.pages)
  {
    var order := RawIntList(raw);
    if order.None? {
      return ServerError;
    }
    if |order.value| != |doc.pages| {
      return PlainError(400, OrderLengthMessage(|order.value|, |doc.pages|));
    }
    var invalid := InvalidPages(order.value, |doc.pages|);
    if invalid != [] {
      return PlainError(400, InvalidPagesMessage(invalid));
    }
    doc.Select(order.value);
    r := PdfBytes(doc.pages, OperationHeader("Reordered " + IntToDecimal(|order.value|) + " pages"));
  }

  /** `POST /pdf/extract-pages`: no length requirement. */
  function ExtractPagesReply(pages: seq<Page>, raw: string): (r: EditorReply)
    ensures RawIntList(raw).None? ==> r == ServerError
    ensures RawIntList(raw).Some? ==>
      var L := RawIntList(raw).value;
      && (!AllInRange(L, |pages|) ==> r == PlainError(400, InvalidPagesMessage(InvalidPages(L, |pages|))))
      && (AllInRange(L, |pages|) ==>
            r.PdfBytes? && |r.pages| == |L| && (forall i :: 0 <= i < |L| ==> r.pages[i] == pages[L[i]])
            && r.headers == OperationHeader("Extracted " + IntToDecimal(|L|) + " pages"))
  {
    match RawIntList(raw)
    case None => ServerError
    case Some(L) =>
      var invalid := InvalidPages(L, |pages|);
      if invalid != [] then PlainError(400, InvalidPagesMessage(invalid))
      else PdfBytes(Selected(pages, L), OperationHeader("Extracted " + IntToDecimal(|L|) + " pages"))
  }

  method ExtractPages(doc: Document, raw: string) returns (r: EditorReply)
    modifies doc
    ensures r == ExtractPagesReply(old(doc.pages), raw)
    ensures doc.pages == if r.PdfBytes? then r.pages else old(doc.pages)
  {
    var pages := RawIntList(raw);
    if pages.None? {
      return ServerError;
    }
    var invalid := InvalidPages(pages.value, |doc.pages|);
    if invalid != [] {
      return PlainError(400, InvalidPagesMessage(invalid));
    }
    doc.Select(pages.value);
    r := PdfBytes(doc.pages, OperationHeader("Extracted " + IntToDecimal(|pages.value|) + " pages"));
  }

  /** On a list both services can read, the two agree on the pages they
      answer and on every 400. */
  lemma PageListsAsProcessor(pages: seq<Page>, raw: string)
    requires RawIntList(raw).Some?
    ensures var L := RawIntList(raw).value;
      && (ReorderPagesReply(pages, raw).PdfBytes? <==> ReorderResult(pages, L).success)
      && (ReorderPagesReply(pages, raw).PdfBytes? ==> ReorderPagesReply(pages, raw).pages == ReorderResult(pages, L).saved.value)
      && (ReorderPagesReply(pages, raw).PlainError? ==> ReorderResult(pages, L).error == Some(ReorderPagesReply(pages, raw).content))
      && (ExtractPagesReply(pages, raw).PdfBytes? <==> ExtractResult(pages, L).success)
      && (ExtractPagesReply(pages, raw).PdfBytes? ==> ExtractPagesReply(pages, raw).pages == ExtractResult(pages, L).saved.value)
      && (ExtractPagesReply(pages, raw).PlainError? ==> ExtractResult(pages, L).error == Some(ExtractPagesReply(pages, raw).content))
  {
  }

  // ---------------------------------------------------------------------
  // Redaction

  /** `POST /pdf/redact-text`: every field of `targets.split(",")` is
      searched, empty ones included; the count of hits goes out in both
      headers. */
  function RedactTextReply(pages: seq<Page>, targets: string, search: Search): (r: EditorReply)
    ensures var n := TotalHits(pages, Split(targets, ','), search);
      && r.PdfBytes? && r.pages == RedactedPages(pages, Split(targets, ','), search)
      && r.headers == [("x-operation-message", "Redacted " + IntToDecimal(n) + " instances"),
                       ("x-removed-count", IntToDecimal(n))]
  {
    var T := Split(targets, ',');
    var removed := TotalHits(pages, T, search);
    PdfBytes(RedactedPages(pages, T, search),
             [("x-operation-message", "Redacted " + IntToDecimal(removed) + " instances"),
              ("x-removed-count", IntToDecimal(removed))])
  }

  method RedactText(doc: Document, targets: string, search: Search) returns (r: EditorReply)
    modifies doc
    ensures r == RedactTextReply(old(doc.pages), targets, search)
    ensures doc.pages == r.pages
  {
    var targetList := Split(targets, ',');
    var removed := doc.RedactAll(targetList, search);
    r := PdfBytes(doc.pages,
                  [("x-operation-message", "Redacted " + IntToDecimal(removed) + " instances"),
                   ("x-removed-count", IntToDecimal(removed))]);
  }

  /** A trailing comma adds the empty string as a target, and its hits are
      counted with the rest; the count header reads back as the count. */
  lemma TrailingCommaSearchesEmpty(pages: seq<Page>, targets: string, search: Search)
    ensures var r := RedactTextReply(pages, targets + [','], search);
      && TotalHits(pages, Split(targets + [','], ','), search)
         == TotalHits(pages, Split(targets, ','), search) + TotalHits(pages, [""], search)
      && PyParseInt(r.headers[1].1) == Some(TotalHits(pages, Split(targets + [','], ','), search))
  {
    PdfApi.SplitTrailingComma(targets);
    TotalHitsAppend(pages, Split(targets, ','), [""], search);
    PyIntOfIntegerText(TotalHits(pages, Split(targets + [','], ','), search));
  }
}
