/** `PDFProcessor`, the static methods both Python services use (the copy at
    the repository root and the one under `pdf-editor/scripts` share this
    logic; only the root copy has `replace_text_instance`). Each method
    opens the document, checks its arguments, edits the document in place,
    saves it and answers with a result dictionary. */
module PdfProcessor {
  import opened Wrappers
  import opened Strings
  import opened Numbers
  import opened Pages

  /** The result dictionary: `success`, and `message`, `error` and
      `removed_count` when present; `saved` is what `doc.save` wrote (the
      `output_path` entry). */
  datatype ProcResult = ProcResult(
    success: bool,
    message: Option<string>,
    error: Option<string>,
    removedCount: Option<int>,
    saved: Option<seq<Page>>)

  function Failed(error: string): ProcResult {
    ProcResult(false, None, Some(error), None, None)
  }

  function Done(message: string, removedCount: Option<int>, saved: seq<Page>): ProcResult {
    ProcResult(true, Some(message), None, removedCount, Some(saved))
  }

  /** The text of the exception PyMuPDF raises for a page index past the
      end; the library is not part of this model. */
  const BadPageNumber: string := "bad page number(s)"

  // ---------------------------------------------------------------------
  // Python `repr` of the lists the error messages print

  function JoinWith(parts: seq<string>, sep: string): string {
    if |parts| == 0 then ""
    else if |parts| == 1 then parts[0]
    else parts[0] + sep + JoinWith(parts[1..], sep)
  }

  /** `str([1, -2])` is `"[1, -2]"`. */
  function PyIntListRepr(L: seq<int>): (r: string)
    ensures |r| >= 2 && r[0] == '[' && r[|r| - 1] == ']'
  {
    "[" + JoinWith(seq(|L|, i requires 0 <= i < |L| => IntToDecimal(L[i])), ", ") + "]"
  }

  /** `repr(s)` for a string without quotes or backslashes in it. */
  function PyStrRepr(s: string): string {
    "'" + s + "'"
  }

  function PyStrListRepr(L: seq<string>): (r: string)
    ensures |r| >= 2 && r[0] == '[' && r[|r| - 1] == ']'
  {
    "[" + JoinWith(seq(|L|, i requires 0 <= i < |L| => PyStrRepr(L[i])), ", ") + "]"
  }

  /** `str([1, -2])` is "[1, -2]": element texts, ", " between them. */
  lemma IntListReprExample()
    ensures PyIntListRepr([1, -2]) == "[1, -2]"
  {
    var texts := seq(2, i requires 0 <= i < 2 => IntToDecimal([1, -2][i]));
    assert IntToDecimal(1) == "1";
    assert IntToDecimal(-2) == "-2" by { assert NatToDecimal(2) == "2"; }
    assert texts == ["1", "-2"];
    assert JoinWith(["1", "-2"], ", ") == "1, -2" by {
      assert ["1", "-2"][1..] == ["-2"];
    }
  }

  /** `str(['a', 'b'])` is "['a', 'b']". */
  lemma StrListReprExample()
    ensures PyStrListRepr(["a", "b"]) == "['a', 'b']"
  {
    var quoted := seq(2, i requires 0 <= i < 2 => PyStrRepr(["a", "b"][i]));
    assert PyStrRepr("a") == "'a'" && PyStrRepr("b") == "'b'";
    assert quoted == ["'a'", "'b'"];
    assert JoinWith(["'a'", "'b'"], ", ") == "'a', 'b'" by {
      assert ["'a'", "'b'"][1..] == ["'b'"];
    }
  }

  function InvalidPageMessage(page: int): string {
    "Invalid page number: " + IntToDecimal(page)
  }

  function InvalidPagesMessage(invalid: seq<int>): string {
    "Invalid page numbers: " + PyIntListRepr(invalid)
  }

  // ---------------------------------------------------------------------
  // Edits of one page

  /** The document after page `page` received edit `e`: the same number of
      pages, every other page untouched. */
  predicate EditedOnly(before: seq<Page>, after: seq<Page>, page: int, e: Edit) {
    && |after| == |before|
    && InRange(page, |before|)
    && after[page].content == before[page].content
    && after[page].edits == before[page].edits + [e]
    && forall i :: 0 <= i < |before| && i != page ==> after[i] == before[i]
  }

  /** What `add_text` answers for a document with pages `pages`: a page
      outside `[0, len(doc))` is refused and nothing is saved; otherwise the
      text goes onto that page and only that page changes. */
  function AddTextResult(pages: seq<Page>, text: string, page: int): (r: ProcResult)
    ensures r.success <==> InRange(page, |pages|)
    ensures !r.success ==> r == Failed(InvalidPageMessage(page))
    ensures r.success ==> r.saved.Some? && EditedOnly(pages, r.saved.value, page, TextInserted(text))
    ensures r.success ==> r.message == Some("Text added to page " + IntToDecimal(page)) && r.removedCount.None?
  {
    if page < 0 || page >= |pages| then Failed(InvalidPageMessage(page))
    else Done("Text added to page " + IntToDecimal(page), None, pages[page := WithEdit(pages[page], TextInserted(text))])
  }

  /** `add_text` on an open document. Position, font, size and colour are
      not modelled. */
  method AddText(doc: Document, text: string, page: int) returns (r: ProcResult)
    modifies doc
    ensures r == AddTextResult(old(doc.pages), text, page)
    ensures doc.pages == if r.success then r.saved.value else old(doc.pages)
  {
    if page < 0 || page >= |doc.pages| {
      return Failed(InvalidPageMessage(page));
    }
    doc.EditPage(page, TextInserted(text));
    r := Done("Text added to page " + IntToDecimal(page), None, doc.pages);
  }

  /** Whether `replace_text_instance` writes a replacement: only for a
      non-empty string. */
  predicate Writes(replacement: Option<string>) {
    replacement.Some? && replacement.value != ""
  }

  /** What `replace_text_instance` answers: a rectangle of other than four
      values is refused before the document is looked at, then the page
      range is checked; the area is blanked and, for a non-empty
      replacement, the replacement is written into it. The message says
      "Replaced text" exactly when a replacement was written. */
  function ReplaceResult(pages: seq<Page>, page: int, rectCoords: seq<Double>, replacement: Option<string>): (r: ProcResult)
    ensures r.success <==> |rectCoords| == 4 && InRange(page, |pages|)
    ensures |rectCoords| != 4 ==> r == Failed("rect must contain 4 values")
    ensures |rectCoords| == 4 && !InRange(page, |pages|) ==> r == Failed(InvalidPageMessage(page))
    ensures r.success ==>
      var area := Rect(rectCoords[0], rectCoords[1], rectCoords[2], rectCoords[3]);
      && r.saved.Some? && |r.saved.value| == |pages|
      && (forall i :: 0 <= i < |pages| && i != page ==> r.saved.value[i] == pages[i])
      && r.saved.value[page].content == pages[page].content
      && r.saved.value[page].edits == pages[page].edits + [AreaRedacted(area)]
                                       + (if Writes(replacement) then [TextboxInserted(area, replacement.value)] else [])
      && r.message == Some(if Writes(replacement) then "Replaced text" else "Removed text")
      && r.removedCount.None?
  {
    if |rectCoords| != 4 then Failed("rect must contain 4 values")
    else if page < 0 || page >= |pages| then Failed(InvalidPageMessage(page))
    else
      var area := Rect(rectCoords[0], rectCoords[1], rectCoords[2], rectCoords[3]);
      var blanked := WithEdit(pages[page], AreaRedacted(area));
      var edited := if Writes(replacement) then WithEdit(blanked, TextboxInserted(area, replacement.value)) else blanked;
      Done(if Writes(replacement) then "Replaced text" else "Removed text", None, pages[page := edited])
  }

  /** `replace_text_instance` on an open document. */
  method ReplaceTextInstance(doc: Document, page: int, rectCoords: seq<Double>, replacement: Option<string>)
    returns (r: ProcResult)
    modifies doc
    ensures r == ReplaceResult(old(doc.pages), page, rectCoords, replacement)
    ensures doc.pages == if r.success then r.saved.value else old(doc.pages)
  {
    if |rectCoords| != 4 {
      return Failed("rect must contain 4 values");
    }
    if page < 0 || page >= |doc.pages| {
      return Failed(InvalidPageMessage(page));
    }
    var area := Rect(rectCoords[0], rectCoords[1], rectCoords[2], rectCoords[3]);
    ghost var blanked := WithEdit(doc.pages[page], AreaRedacted(area));
    doc.EditPage(page, AreaRedacted(area));
    if Writes(replacement) {
      doc.EditPage(page, TextboxInserted(area, replacement.value));
      assert doc.pages == old(doc.pages)[page := WithEdit(blanked, TextboxInserted(area, replacement.value))];
    }
    r := Done(if Writes(replacement) then "Replaced text" else "Removed text", None, doc.pages);
  }

  /** What `add_image` answers: a missing image file is refused before the
      document is looked at, then the page range is checked; only that page
      changes. */
  function AddImageResult(pages: seq<Page>, imagePath: string, imageExists: bool, page: int): (r: ProcResult)
    ensures r.success <==> imageExists && InRange(page, |pages|)
    ensures !imageExists ==> r == Failed("Image not found: " + imagePath)
    ensures imageExists && !InRange(page, |pages|) ==> r == Failed(InvalidPageMessage(page))
    ensures r.success ==> r.saved.Some? && EditedOnly(pages, r.saved.value, page, ImageInserted(imagePath))
    ensures r.success ==> r.message == Some("Image added to page " + IntToDecimal(page)) && r.removedCount.None?
  {
    if !imageExists then Failed("Image not found: " + imagePath)
    else if page < 0 || page >= |pages| then Failed(InvalidPageMessage(page))
    else Done("Image added to page " + IntToDecimal(page), None, pages[page := WithEdit(pages[page], ImageInserted(imagePath))])
  }

  /** `add_image` on an open document. The placement rectangle is not
      modelled. */
  method AddImage(doc: Document, imagePath: string, imageExists: bool, page: int) returns (r: ProcResult)
    modifies doc
    ensures r == AddImageResult(old(doc.pages), imagePath, imageExists, page)
    ensures doc.pages == if r.success then r.saved.value else old(doc.pages)
  {
    if !imageExists {
      return Failed("Image not found: " + imagePath);
    }
    if page < 0 || page >= |doc.pages| {
      return Failed(InvalidPageMessage(page));
    }
    doc.EditPage(page, ImageInserted(imagePath));
    r := Done("Image added to page " + IntToDecimal(page), None, doc.pages);
  }

  // ---------------------------------------------------------------------
  // Page-list operations

  /** What `delete_pages` answers: any out-of-range index makes it fail
      listing exactly those indices in input order; otherwise the indices
      are deleted from the largest down, and a repeated index that runs
      past the end raises PyMuPDF's error. The message counts the indices
      given, duplicates included, and on success that many pages are gone. */
  function DeleteResult(pages: seq<Page>, L: seq<int>): (r: ProcResult)
    ensures !AllInRange(L, |pages|) ==> r == Failed(InvalidPagesMessage(InvalidPages(L, |pages|)))
    ensures r.success ==>
      && AllInRange(L, |pages|)
      && r.saved.Some? && |r.saved.value| == |pages| - |L|
      && r.message == Some("Deleted " + IntToDecimal(|L|) + " pages") && r.removedCount.None?
    ensures !r.success ==> r.saved.None?
  {
    var invalid := InvalidPages(L, |pages|);
    if invalid != [] then Failed(InvalidPagesMessage(invalid))
    else match DeleteEach(pages, SortDescending(L))
      case None => Failed(BadPageNumber)
      case Some(rest) => Done("Deleted " + IntToDecimal(|L|) + " pages", None, rest)
  }

  /** With distinct in-range indices the deletion always succeeds, and the
      pages left are exactly the unlisted ones, in their order. */
  lemma DistinctPagesDeleted(pages: seq<Page>, L: seq<int>)
    requires NoDuplicates(L) && AllInRange(L, |pages|)
    ensures DeleteResult(pages, L) == Done("Deleted " + IntToDecimal(|L|) + " pages", None, Survivors(pages, set x | x in L))
  {
    DeletePagesRemovesListed(pages, L);
  }

  /** `delete_pages` on an open document. */
  method DeletePages(doc: Document, pageNumbers: seq<int>) returns (r: ProcResult)
    modifies doc
    ensures r == DeleteResult(old(doc.pages), pageNumbers)
    ensures r.success ==> doc.pages == r.saved.value
    ensures !AllInRange(pageNumbers, |old(doc.pages)|) ==> doc.pages == old(doc.pages)
  {
    var invalid := InvalidPages(pageNumbers, |doc.pages|);
    if invalid != [] {
      return Failed(InvalidPagesMessage(invalid));
    }
    SortedInRange(pageNumbers, |doc.pages|);
    var ok := doc.DeleteInOrder(SortDescending(pageNumbers));
    if !ok {
      return Failed(BadPageNumber);
    }
    r := Done("Deleted " + IntToDecimal(|pageNumbers|) + " pages", None, doc.pages);
  }

  /** The message `reorder_pages` gives for a list of the wrong length. */
  function OrderLengthMessage(given: int, count: int): string {
    "Order length (" + IntToDecimal(given) + ") doesn't match page count (" + IntToDecimal(count) + ")"
  }

  /** What `reorder_pages` answers: the length must equal the page count
      (checked first), then every index must be in range; output page `i`
      is input page `newOrder[i]`, duplicates allowed. */
  function ReorderResult(pages: seq<Page>, newOrder: seq<int>): (r: ProcResult)
    ensures r.success <==> |newOrder| == |pages| && AllInRange(newOrder, |pages|)
    ensures |newOrder| != |pages| ==> r == Failed(OrderLengthMessage(|newOrder|, |pages|))
    ensures |newOrder| == |pages| && !AllInRange(newOrder, |pages|) ==>
      r == Failed(InvalidPagesMessage(InvalidPages(newOrder, |pages|)))
    ensures r.success ==>
      && r.saved.Some? && |r.saved.value| == |pages|
      && (forall i :: 0 <= i < |pages| ==> r.saved.value[i] == pages[newOrder[i]])
      && r.message == Some("Reordered " + IntToDecimal(|newOrder|) + " pages") && r.removedCount.None?
  {
    if |newOrder| != |pages| then Failed(OrderLengthMessage(|newOrder|, |pages|))
    else
      var invalid := InvalidPages(newOrder, |pages|);
      if invalid != [] then Failed(InvalidPagesMessage(invalid))
      else Done("Reordered " + IntToDecimal(|newOrder|) + " pages", None, Selected(pages, newOrder))
  }

  /** `reorder_pages` on an open document. */
  method ReorderPages(doc: Document, newOrder: seq<int>) returns (r: ProcResult)
    modifies doc
    ensures r == ReorderResult(old(doc.pages), newOrder)
    ensures doc.pages == if r.success then r.saved.value else old(doc.pages)
  {
    if |newOrder| != |doc.pages| {
      return Failed(OrderLengthMessage(|newOrder|, |doc.pages|));
    }
    var invalid := InvalidPages(newOrder, |doc.pages|);
    if invalid != [] {
      return Failed(InvalidPagesMessage(invalid));
    }
    doc.Select(newOrder);
    r := Done("Reordered " + IntToDecimal(|newOrder|) + " pages", None, doc.pages);
  }

  /** What `extract_pages` answers: no length requirement; every index must
      be in range, and the output holds the listed pages in the listed
      order. */
  function ExtractResult(pages: seq<Page>, L: seq<int>): (r: ProcResult)
    ensures r.success <==> AllInRange(L, |pages|)
    ensures !r.success ==> r == Failed(InvalidPagesMessage(InvalidPages(L, |pages|)))
    ensures r.success ==>
      && r.saved.Some? && |r.saved.value| == |L|
      && (forall i :: 0 <= i < |L| ==> r.saved.value[i] == pages[L[i]])
      && r.message == Some("Extracted " + IntToDecimal(|L|) + " pages") && r.removedCount.None?
  {
    var invalid := InvalidPages(L, |pages|);
    if invalid != [] then Failed(InvalidPagesMessage(invalid))
    else Done("Extracted " + IntToDecimal(|L|) + " pages", None, Selected(pages, L))
  }

  /** `extract_pages` on an open document. */
  method ExtractPages(doc: Document, pageNumbers: seq<int>) returns (r: ProcResult)
    modifies doc
    ensures r == ExtractResult(old(doc.pages), pageNumbers)
    ensures doc.pages == if r.success then r.saved.value else old(doc.pages)
  {
    var invalid := InvalidPages(pageNumbers, |doc.pages|);
    if invalid != [] {
      return Failed(InvalidPagesMessage(invalid));
    }
    doc.Select(pageNumbers);
    r := Done("Extracted " + IntToDecimal(|pageNumbers|) + " pages", None, doc.pages);
  }

  // ---------------------------------------------------------------------
  // Merge

  /** `[p for p in paths if not os.path.exists(p)]`, in order. */
  function MissingFiles(paths: seq<string>, files: map<string, seq<Page>>): (r: seq<string>)
    ensures forall p :: p in r <==> p in paths && p !in files
    ensures r == [] <==> forall i :: 0 <= i < |paths| ==> paths[i] in files
  {
    if paths == [] then []
    else
      assert forall p :: p in paths <==> p == paths[0] || p in paths[1..];
      (if paths[0] in files then [] else [paths[0]]) + MissingFiles(paths[1..], files)
  }

  /** The pages of every listed file, one file after the other. */
  function MergedPages(paths: seq<string>, files: map<string, seq<Page>>): seq<Page>
    requires forall i :: 0 <= i < |paths| ==> paths[i] in files
  {
    if paths == [] then [] else MergedPages(paths[..|paths| - 1], files) + files[paths[|paths| - 1]]
  }

  /** Merging `A + B` is merging `A` followed by merging `B`. */
  lemma {:induction false} MergedPagesAppend(A: seq<string>, B: seq<string>, files: map<string, seq<Page>>)
    requires forall i :: 0 <= i < |A| ==> A[i] in files
    requires forall i :: 0 <= i < |B| ==> B[i] in files
    ensures forall i :: 0 <= i < |A + B| ==> (A + B)[i] in files
    ensures MergedPages(A + B, files) == MergedPages(A, files) + MergedPages(B, files)
    decreases |B|
  {
    if B == [] {
      assert A + B == A;
    } else {
      var B' := B[..|B| - 1];
      assert (A + B)[..|A + B| - 1] == A + B';
      MergedPagesAppend(A, B', files);
    }
  }

  /** `merge_pdfs`: every missing path is listed before any file is opened;
      otherwise a fresh document receives each file's pages in turn.
      `files` maps each existing path to the pages of the PDF it holds. */
  method MergePdfs(paths: seq<string>, files: map<string, seq<Page>>) returns (r: ProcResult)
    ensures MissingFiles(paths, files) != [] ==> r == Failed("Files not found: " + PyStrListRepr(MissingFiles(paths, files)))
    ensures MissingFiles(paths, files) == [] ==>
      r == Done("Merged " + IntToDecimal(|paths|) + " PDFs", None, MergedPages(paths, files))
  {
    var missing := MissingFiles(paths, files);
    if missing != [] {
      return Failed("Files not found: " + PyStrListRepr(missing));
    }
    var result := new Document([]);
    var i := 0;
    while i < |paths|
      invariant 0 <= i <= |paths|
      invariant result.pages == MergedPages(paths[..i], files)
    {
      assert paths[..i + 1][..i] == paths[..i];
      result.InsertPdf(files[paths[i]]);
      i := i + 1;
    }
    assert paths[..i] == paths;
    r := Done("Merged " + IntToDecimal(|paths|) + " PDFs", None, result.pages);
  }

  // ---------------------------------------------------------------------
  // Redaction

  /** What `redact_text` answers: every hit of every target on every page
      is redacted, and `removed_count` is the total number of hits. */
  function RedactResult(pages: seq<Page>, targets: seq<string>, search: Search): (r: ProcResult)
    ensures r.success && r.saved == Some(RedactedPages(pages, targets, search))
    ensures r.removedCount == Some(TotalHits(pages, targets, search))
    ensures r.message == Some("Redacted " + IntToDecimal(TotalHits(pages, targets, search)) + " instances")
  {
    var removed := TotalHits(pages, targets, search);
    Done("Redacted " + IntToDecimal(removed) + " instances", Some(removed), RedactedPages(pages, targets, search))
  }

  /** `redact_text` on an open document. The fill colour is not modelled. */
  method RedactText(doc: Document, targets: seq<string>, search: Search) returns (r: ProcResult)
    modifies doc
    ensures r == RedactResult(old(doc.pages), targets, search)
    ensures doc.pages == r.saved.value
  {
    var removed := doc.RedactAll(targets, search);
    r := Done("Redacted " + IntToDecimal(removed) + " instances", Some(removed), doc.pages);
  }
}
