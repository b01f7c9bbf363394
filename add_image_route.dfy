/** `app/api/pdf/add-image/route.ts`: the parsing and validation of the
    multipart form, then the route's own copy of the download, operate,
    rename, upload and best-effort delete sequence that `withPdfOperation`
    performs for the other editing routes. */
module AddImageRoute {
  import opened Wrappers
  import opened Strings
  import opened Numbers
  import opened JsValues
  import opened ApiTypes
  import opened ApiUtils
  import opened Storage
  import opened VersionNames
  import opened PdfOperationWrapper
  import opened RouteSupport
  import PythonBridge

  const InvalidMessage := "Invalid parameters: fileName, image, x, and y are required"
  const DefaultMessage := "Image added successfully"

  /** An uploaded image: its bytes, file name and content type. */
  datatype ImageFile = ImageFile(buffer: Bytes, name: string, contentType: string)

  /** The multipart form as `formData.get` sees it, `None` standing for an
      absent field: text in the text fields, a file in `image`. */
  datatype ImageForm = ImageForm(
    fileName: Option<string>, image: Option<ImageFile>,
    x: Option<string>, y: Option<string>, page: Option<string>,
    width: Option<string>, height: Option<string>)

  /** The placement `addImageToPDF` receives. */
  datatype Placement = Placement(x: Double, y: Double, page: Double, width: Option<Double>, height: Option<Double>)

  /** `formData.get(key) as string`: an absent field is null, which
      `parseFloat` and `parseInt` read as the text "null". */
  function FieldText(field: Option<string>): string {
    field.GetOr("null")
  }

  /** `value ? parseFloat(value) : undefined` */
  function SizeOf(field: Option<string>): Option<Double> {
    if field.Some? && field.value != "" then Some(JsParseFloat(field.value)) else None
  }

  /** The placement read from the form: the coordinates through
      `parseFloat`; the page through `parseInt(...) || 0`, so it is a whole
      number and 0 whenever the field gives NaN or 0; width and height only
      when their fields are present and not empty, and then through
      `parseFloat` without any check. */
  function PlacementOf(form: ImageForm): (p: Placement)
    ensures p.x == JsParseFloat(FieldText(form.x)) && p.y == JsParseFloat(FieldText(form.y))
    ensures IsIntegral(p.page)
    ensures var parsed := JsParseInt(FieldText(form.page));
      p.page == if parsed.NaN? || parsed == Finite(0.0) then Finite(0.0) else parsed
    ensures p.width.None? <==> form.width.None? || form.width.value == ""
    ensures p.width.Some? ==> p.width.value == JsParseFloat(form.width.value)
    ensures p.height.None? <==> form.height.None? || form.height.value == ""
    ensures p.height.Some? ==> p.height.value == JsParseFloat(form.height.value)
  {
    var parsed := JsParseInt(FieldText(form.page));
    var page := if parsed.NaN? || parsed == Finite(0.0) then Finite(0.0) else parsed;
    assert IsIntegral(Finite(0.0));
    Placement(JsParseFloat(FieldText(form.x)), JsParseFloat(FieldText(form.y)), page,
              SizeOf(form.width), SizeOf(form.height))
  }

  /** `!fileName || !imageFile || Number.isNaN(x) || Number.isNaN(y)`
      refuses the form. */
  predicate Acceptable(form: ImageForm) {
    var p := PlacementOf(form);
    && form.fileName.Some? && form.fileName.value != ""
    && form.image.Some?
    && !p.x.NaN? && !p.y.NaN?
  }

  /** `addImageToPDF` with the bridge and the service behind it: the PDF,
      the image and the placement give the edited PDF or a thrown error. */
  type ImageOperation = (PdfFile, ImageFile, Placement) -> Result<BinaryResponse, Thrown>

  /** The operation on the downloaded PDF alone, as `withPdfOperation` would
      run it. */
  function OnPdf(addImage: ImageOperation, image: ImageFile, placement: Placement): Operation {
    (pdf: PdfFile) => addImage(pdf, image, placement)
  }

  /** `POST`: a form that is refused answers 500 and touches nothing.
      Otherwise the route's inline sequence answers, and leaves the store,
      exactly as `withPdfOperation` would with the same operation: the new
      name is the fresh UUID before the stripped old name, the upload comes
      before the removal of the old name, and a failed removal is swallowed;
      the message defaults to "Image added successfully". */
  method Post(store: Store, form: ImageForm, addImage: ImageOperation, uuid: string, uploadOk: bool, deleteOk: bool)
    returns (r: Response)
    requires IsUuidText(uuid)
    modifies store
    ensures !Acceptable(form) ==> r == RouteError(InvalidMessage) && store.files == old(store.files)
    ensures Acceptable(form) ==>
      var operation := OnPdf(addImage, form.image.value, PlacementOf(form));
      && r == OperationReply(OperationOutcome(old(store.files), store.backend, form.fileName.value, operation, uuid, uploadOk),
                             DefaultMessage)
      && store.files == FilesAfter(old(store.files), store.backend, form.fileName.value, operation, uuid, uploadOk, deleteOk)
  {
    var placement := PlacementOf(form);
    if !Acceptable(form) {
      return RouteError(InvalidMessage);
    }
    var fileName := form.fileName.value;
    ghost var operation := OnPdf(addImage, form.image.value, placement);
    var pdf := store.Download(fileName);
    if pdf.Failure? {
      return HandleApiError(pdf.error);
    }
    var result := addImage(PdfFile(pdf.value, fileName), form.image.value, placement);
    assert result == operation(PdfFile(pdf.value, fileName));
    if result.Failure? {
      return HandleApiError(result.error);
    }
    var updatedFileName := EditedName(uuid, fileName);
    var uploaded := store.Upload(updatedFileName, result.value.buffer, uploadOk);
    if uploaded.Failure? {
      return HandleApiError(uploaded.error);
    }
    // a failed delete is only logged
    var cleanup := store.Delete(fileName, deleteOk);
    r := FileAnswer(updatedFileName, MessageOr(result.value.message, DefaultMessage));
  }

  /** "null" holds neither a digit, a dot nor "Infinity". */
  lemma NullTextIsNaN()
    ensures JsParseFloat("null").NaN? && JsParseInt("null").NaN?
  {
    assert TrimStart("null", JsSpaces) == "null";
    assert Unsigned("null") == "null";
    assert LeadingDigits("null") == "";
  }

  /** A form without `x` or `y` is refused, and one without `page` places
      the image on page 0. */
  lemma AbsentFields(form: ImageForm)
    ensures form.x.None? || form.y.None? ==> !Acceptable(form)
    ensures form.page.None? ==> PlacementOf(form).page == Finite(0.0)
  {
    NullTextIsNaN();
  }

  /** The bridge sends `width` and `height` exactly when their form fields
      were filled in; an unreadable size is still sent, as NaN. */
  lemma SizeSentOnlyWhenFilled(form: ImageForm, pdf: PythonBridge.FilePayload, image: PythonBridge.FilePayload)
    ensures var p := PlacementOf(form);
      var e := PythonBridge.AddImageFields(pdf, image, p.x, p.y, Some(p.page), p.width, p.height);
      && (PythonBridge.FieldValue(e, PythonBridge.WidthKey).Some? <==> form.width.Some? && form.width.value != "")
      && (PythonBridge.FieldValue(e, PythonBridge.HeightKey).Some? <==> form.height.Some? && form.height.value != "")
  {
    var p := PlacementOf(form);
    PythonBridge.ImageSizeSentOnlyWhenGiven(pdf, image, p.x, p.y, Some(p.page), p.width, p.height);
  }
}
