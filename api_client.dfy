/** `lib/pdf-api-client.ts`: the browser's client of the Next.js routes.
    It turns a failed request into an `ApiError` (`buildApiError`), a
    network failure into a 503 (`safeFetch`), and fills the add-image form
    with `appendOptional`. */
module ApiClient {
  import opened Wrappers
  import opened Strings
  import opened Numbers
  import opened JsValues
  import opened ApiTypes
  import PythonBridge

  /** The statuses that mark the service as unavailable. */
  const ServiceUnavailableStatuses: set<int> := {502, 503, 504}

  function DefaultMessage(status: int): string {
    "Request failed with status " + IntToDecimal(status)
  }

  /** The message `buildApiError` settles on. `raw` is the response text and
      `parsed` what `JSON.parse(raw)` gives, `None` when it throws. */
  function ErrorMessage(status: int, statusText: string, raw: string, parsed: Option<JsValue>): string {
    var default := DefaultMessage(status);
    if raw != "" then
      match parsed
      case None => raw
      case Some(v) =>
        if Truthy(v) && IsObject(v) then ToJsString(Or(Or(Get(v, "error"), Get(v, "detail")), Str(default)))
        else if v.Str? then v.s
        else default
    else if statusText != "" then statusText
    else default
  }

  /** `buildApiError(response)`: always an `ApiError` with the response's
      status, unavailable exactly for 502, 503 and 504. */
  function BuildApiError(status: int, statusText: string, raw: string, parsed: Option<JsValue>): (e: Thrown)
    ensures e.ApiError? && e.status == status
    ensures e.unavailable <==> status == 502 || status == 503 || status == 504
    ensures raw == "" && statusText != "" ==> e.message == statusText
    ensures raw == "" && statusText == "" ==> e.message == DefaultMessage(status)
    ensures raw != "" && parsed.None? ==> e.message == raw
    ensures raw != "" && parsed.Some? && parsed.value.Str? ==> e.message == parsed.value.s
    ensures raw != "" && parsed.Some? && (parsed.value.Null? || parsed.value.Bool? || parsed.value.Num?) ==>
      e.message == DefaultMessage(status)
    ensures raw != "" && parsed.Some? && IsObject(parsed.value) && Truthy(Get(parsed.value, "error")) ==>
      e.message == ToJsString(Get(parsed.value, "error"))
    ensures (raw != "" && parsed.Some? && IsObject(parsed.value) && !Truthy(Get(parsed.value, "error"))
             && Truthy(Get(parsed.value, "detail"))) ==> e.message == ToJsString(Get(parsed.value, "detail"))
    ensures (raw != "" && parsed.Some? && IsObject(parsed.value) && !Truthy(Get(parsed.value, "error"))
             && !Truthy(Get(parsed.value, "detail"))) ==> e.message == DefaultMessage(status)
  {
    NewApiError(ErrorMessage(status, statusText, raw, parsed), Some(status), Some(status in ServiceUnavailableStatuses))
  }

  /** The client reads `error` before `detail`, the bridge's `ensureOk`
      reads `detail` before `error`: an answer carrying both yields two
      different messages. */
  lemma ErrorFirstUnlikeBridge(status: int, statusText: string, raw: string, err: string, detail: string)
    requires raw != "" && err != "" && detail != "" && err != detail
    ensures var payload := Obj([("error", Str(err)), ("detail", Str(detail))]);
      && BuildApiError(status, statusText, raw, Some(payload)).message == err
      && PythonBridge.EnsureOk(status, statusText, payload).message == detail
  {
    var payload := Obj([("error", Str(err)), ("detail", Str(detail))]);
    assert "error" != "detail" by { assert "error"[0] != "detail"[0]; }
    assert payload.props[..1] == [("error", Str(err))];
    assert Lookup([("error", Str(err))], "error") == Str(err);
    assert Lookup(payload.props, "error") == Lookup(payload.props[..1], "error");
    assert Get(payload, "error") == Str(err);
    assert Get(payload, "detail") == Str(detail);
  }

  /** The catch of `safeFetch`: any `TypeError` becomes a 503 `ApiError`
      marked unavailable; everything else is rethrown as it is. */
  function SafeFetchCatch(e: Thrown): (r: Thrown)
    ensures e.Error? && e.cls == TypeError ==> r == ApiError("Unable to reach PDF service", 503, true)
    ensures !(e.Error? && e.cls == TypeError) ==> r == e
  {
    if e.Error? && e.cls == TypeError then NewApiError("Unable to reach PDF service", Some(503), Some(true))
    else e
  }

  /** What `fetch` does with a request: rejects, or answers with a status
      and a body. */
  datatype FetchOutcome =
    | Rejected(error: Thrown)
    | Answered(ok: bool, status: int, statusText: string, raw: string, parsed: Option<JsValue>)

  /** `requestJson` / `requestBlob` up to reading the body: the body text of
      a successful answer, or what is thrown. */
  function Request(outcome: FetchOutcome): (r: Result<string, Thrown>)
    ensures outcome.Rejected? ==> r == Failure(SafeFetchCatch(outcome.error))
    ensures outcome.Answered? && !outcome.ok ==>
      r == Failure(BuildApiError(outcome.status, outcome.statusText, outcome.raw, outcome.parsed))
    ensures outcome.Answered? && outcome.ok ==> r == Success(outcome.raw)
  {
    match outcome
    case Rejected(e) => Failure(SafeFetchCatch(e))
    case Answered(ok, status, statusText, raw, parsed) =>
      if ok then Success(raw) else Failure(BuildApiError(status, statusText, raw, parsed))
  }

  /** A request reports the service as unavailable exactly when the network
      failed or the server answered 502, 503 or 504. */
  lemma UnavailableOnlyWhenUnreachable(outcome: FetchOutcome)
    requires outcome.Rejected? ==> outcome.error.Error? && outcome.error.cls == TypeError
    ensures var r := Request(outcome);
      (r.Failure? && r.error.ApiError? && r.error.unavailable) <==>
        (outcome.Rejected? || (!outcome.ok && outcome.status in ServiceUnavailableStatuses))
  {
  }

  // ---------------------------------------------------------------------
  // The add-image form

  /** The fields `PdfApiClient.addImage` sends: the page defaults to 0,
      width and height only when given. */
  function AddImageFields(fileName: string, image: PythonBridge.FormValue, x: Double, y: Double,
                          page: Option<Double>, width: JsValue, height: JsValue): seq<(PythonBridge.FieldName, PythonBridge.FormValue)>
  {
    [(PythonBridge.FileNameKey, PythonBridge.Text(fileName))] + [(PythonBridge.ImageKey, image)]
    + [(PythonBridge.XKey, PythonBridge.Number(x))] + [(PythonBridge.YKey, PythonBridge.Number(y))]
    + [(PythonBridge.PageKey, PythonBridge.Number(page.GetOr(Finite(0.0))))]
    + PythonBridge.OptionalEntry(PythonBridge.WidthKey, width)
    + PythonBridge.OptionalEntry(PythonBridge.HeightKey, height)
  }

  method AddImageForm(fileName: string, image: PythonBridge.FormValue, x: Double, y: Double,
                      page: Option<Double>, width: JsValue, height: JsValue)
    returns (form: PythonBridge.FormData)
    ensures fresh(form)
    ensures form.entries == AddImageFields(fileName, image, x, y, page, width, height)
  {
    form := new PythonBridge.FormData();
    form.Append(PythonBridge.FileNameKey, PythonBridge.Text(fileName));
    assert form.entries == [(PythonBridge.FileNameKey, PythonBridge.Text(fileName))];
    form.Append(PythonBridge.ImageKey, image);
    form.Append(PythonBridge.XKey, PythonBridge.Number(x));
    form.Append(PythonBridge.YKey, PythonBridge.Number(y));
    form.Append(PythonBridge.PageKey, PythonBridge.Number(page.GetOr(Finite(0.0))));
    form.AppendOptional(PythonBridge.WidthKey, width);
    form.AppendOptional(PythonBridge.HeightKey, height);
  }

  /** A width is sent, as its text, exactly when it is neither undefined
      nor null; a width of 0 is still sent. */
  lemma WidthSentUnlessNullish(fileName: string, image: PythonBridge.FormValue, x: Double, y: Double,
                               page: Option<Double>, width: JsValue, height: JsValue)
    ensures var e := AddImageFields(fileName, image, x, y, page, width, height);
      PythonBridge.FieldValue(e, PythonBridge.WidthKey) ==
        if IsNullish(width) then None else Some(PythonBridge.Text(ToJsString(width)))
  {
    var head := [(PythonBridge.FileNameKey, PythonBridge.Text(fileName))] + [(PythonBridge.ImageKey, image)]
      + [(PythonBridge.XKey, PythonBridge.Number(x))] + [(PythonBridge.YKey, PythonBridge.Number(y))]
      + [(PythonBridge.PageKey, PythonBridge.Number(page.GetOr(Finite(0.0))))];
    var v: Option<PythonBridge.FormValue> := if IsNullish(width) then None else Some(PythonBridge.Text(ToJsString(width)));
    var tail := PythonBridge.OptionalEntry(PythonBridge.HeightKey, height);
    PythonBridge.OptionalField(head, PythonBridge.WidthKey, v, tail);
  }
}
