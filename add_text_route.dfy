/** `app/api/pdf/add-text/route.ts`: the required-field and coordinate-type
    checks, and what the route hands to `withPdfOperation`, which runs
    `addTextToPDF`. */
module AddTextRoute {
  import opened Wrappers
  import opened Numbers
  import opened JsValues
  import opened ApiTypes
  import opened ApiUtils
  import opened PdfOperationWrapper
  import opened RouteSupport

  const CoordinatesMessage := "x and y coordinates must be numbers"
  const DefaultMessage := "Text added successfully"
  const Required := ["fileName", "text"]

  /** What the route hands to `withPdfOperation`: the coordinates are
      numbers, everything else is passed on as the body holds it. */
  datatype AddTextRequest = AddTextRequest(
    fileName: JsValue, text: JsValue, x: Double, y: Double,
    page: JsValue, fontSize: JsValue, fontName: JsValue, color: JsValue)

  /** The checks of `POST`, in order: a null body fails to destructure; a
      missing `fileName` or `text` answers 400; an `x` or `y` whose type is
      not `number` (a numeric string included) answers 500. A request
      passing them hands on the page, font size, font name and colour
      without looking at them. */
  function Request(body: JsValue): (s: Step<AddTextRequest>)
    ensures IsNullish(body) ==> s == Answer(HandleApiError(DestructureFailure))
    ensures !IsNullish(body) && ValidateRequired(body, Required).Invalid? ==>
      s == Answer(ValidateRequired(body, Required).error)
    ensures s.Forward? <==>
      && !IsNullish(body) && ValidateRequired(body, Required).Valid?
      && IsNumber(Get(body, "x")) && IsNumber(Get(body, "y"))
    ensures (!IsNullish(body) && ValidateRequired(body, Required).Valid?
             && !(IsNumber(Get(body, "x")) && IsNumber(Get(body, "y")))) ==>
      s == Answer(RouteError(CoordinatesMessage))
    ensures s.Forward? ==>
      && s.args.fileName == Get(body, "fileName") && s.args.text == Get(body, "text")
      && Num(s.args.x) == Get(body, "x") && Num(s.args.y) == Get(body, "y")
      && s.args.page == Get(body, "page") && s.args.fontSize == Get(body, "fontSize")
      && s.args.fontName == Get(body, "fontName") && s.args.color == Get(body, "color")
  {
    if IsNullish(body) then Answer(HandleApiError(DestructureFailure))
    else
      match ValidateRequired(body, Required)
      case Invalid(error) => Answer(error)
      case Valid =>
        var x := Get(body, "x");
        var y := Get(body, "y");
        if !IsNumber(x) || !IsNumber(y) then Answer(RouteError(CoordinatesMessage))
        else Forward(AddTextRequest(Get(body, "fileName"), Get(body, "text"), x.n, y.n,
                                    Get(body, "page"), Get(body, "fontSize"), Get(body, "fontName"), Get(body, "color")))
  }

  /** `POST`: the checks of `Request`, then `StepReply` with the default
      message "Text added successfully". */
  function Post(body: JsValue, run: AddTextRequest -> Result<OperationResult, Thrown>): Response {
    StepReply(Request(body), run, DefaultMessage)
  }

  /** Coordinates sent as numeric text (`"10"`) are refused although
      `Number` would read them: only the `number` type passes. */
  lemma NumericTextCoordinateRefused(props: seq<(string, JsValue)>, digits: string)
    requires ValidateRequired(Obj(props + [("x", Str(digits))]), Required).Valid?
    ensures Request(Obj(props + [("x", Str(digits))])) == Answer(RouteError(CoordinatesMessage))
  {
    var body := props + [("x", Str(digits))];
    assert body[|body| - 1] == ("x", Str(digits));
  }
}
