/** `app/api/pdf/replace-text/route.ts`: the rectangle parser, and the checks
    and normalisation a request goes through before `withPdfOperation` runs
    `replaceTextInstance` on the stored file. */
module ReplaceTextRoute {
  import opened Wrappers
  import opened Strings
  import opened Numbers
  import NumberFacts
  import opened JsValues
  import opened ApiTypes
  import opened ApiUtils
  import opened PdfOperationWrapper
  import opened RouteSupport
  import PythonBridge
  import PdfApi

  const RectLengthMessage := "rect must contain exactly 4 numbers"
  const RectValueMessage := "rect contains invalid numeric values"
  const RectTextMessage := "rect string must contain four comma-separated numbers"
  const RectShapeMessage := "rect must be an array or comma-separated string"
  const PageMessage := "page must be a number"
  const DefaultMessage := "Text updated successfully"
  const Required := ["fileName", "page", "rect"]

  /** `rect.split(',').map((value) => Number(value.trim()))` */
  function FieldNumbers(fields: seq<string>): (v: seq<Double>)
    ensures |v| == |fields| && forall i :: 0 <= i < |fields| ==> v[i] == JsStringToNumber(JsTrim(fields[i]))
  {
    seq(|fields|, i requires 0 <= i < |fields| => JsStringToNumber(JsTrim(fields[i])))
  }

  /** `parseRect(rect)`: four numbers, or the message of the `Error` it
      throws. An array is accepted exactly when it has four elements none of
      which converts to NaN; text exactly when it has four comma-separated
      fields none of which converts to NaN once trimmed; nothing else is. */
  function ParseRect(rect: JsValue): (r: Result<seq<Double>, string>)
    ensures r.Success? ==> |r.value| == 4 && NoNaN(r.value)
    ensures r.Success? <==>
      || (rect.Arr? && |rect.items| == 4 && NoNaN(ItemNumbers(rect.items)))
      || (rect.Str? && |Split(rect.s, ',')| == 4 && NoNaN(FieldNumbers(Split(rect.s, ','))))
    ensures r.Success? && rect.Arr? ==> forall i :: 0 <= i < 4 ==> r.value[i] == ToNumber(rect.items[i])
    ensures r.Success? && rect.Str? ==> r.value == FieldNumbers(Split(rect.s, ','))
    ensures r.Failure? && rect.Arr? ==> r.error == if |rect.items| != 4 then RectLengthMessage else RectValueMessage
    ensures r.Failure? && rect.Str? ==> r.error == RectTextMessage
    ensures !rect.Arr? && !rect.Str? ==> r == Failure(RectShapeMessage)
  {
    match rect
    case Arr(items) =>
      if |items| != 4 then Failure(RectLengthMessage)
      else
        var values := ItemNumbers(items);
        if NoNaN(values) then Success(values) else Failure(RectValueMessage)
    case Str(s) =>
      var values := FieldNumbers(Split(s, ','));
      if |values| == 4 && NoNaN(values) then Success(values) else Failure(RectTextMessage)
    case _ => Failure(RectShapeMessage)
  }

  /** A blank field of a text rectangle reads as 0, since `Number('')` is
      0. */
  lemma BlankRectFieldIsZero(s: string, i: nat)
    requires ParseRect(Str(s)).Success? && i < 4
    requires JsTrim(Split(s, ',')[i]) == ""
    ensures ParseRect(Str(s)).value[i] == Finite(0.0)
  {
  }

  /** The rectangle text the bridge builds with `rect.join(',')` from four
      whole numbers below 10^21 in magnitude is accepted and reads back as
      the same four numbers. */
  lemma {:induction false} RectTextRoundTrip(K: seq<int>)
    requires |K| == 4
    requires forall i :: 0 <= i < |K| ==> !UsesExponent(K[i] as real)
    ensures var L := PythonBridge.AsNumbers(K);
      ParseRect(Str(PythonBridge.RectText(PythonBridge.RectArg(L[0], L[1], L[2], L[3])))) == Success(L)
  {
    var L := PythonBridge.AsNumbers(K);
    assert [L[0], L[1], L[2], L[3]] == L;
    PythonBridge.IntegerListText(K);
    JoinedIntegersParse(K);
  }

  lemma {:induction false} JoinedIntegersParse(K: seq<int>)
    requires |K| == 4
    ensures ParseRect(Str(Join(PdfApi.IntegerTexts(K), ','))) == Success(PythonBridge.AsNumbers(K))
  {
    var text := Join(PdfApi.IntegerTexts(K), ',');
    IntegerFieldsSplit(K);
    IntegerFieldsRead(K);
    var values := PythonBridge.AsNumbers(K);
    assert FieldNumbers(Split(text, ',')) == values;
    assert NoNaN(values);
    TextRect(text);
  }

  /** A text rectangle is read field by field. */
  lemma TextRect(s: string)
    ensures var values := FieldNumbers(Split(s, ','));
      ParseRect(Str(s)) == if |values| == 4 && NoNaN(values) then Success(values) else Failure(RectTextMessage)
  {
  }

  /** Integer texts joined with commas split back into those texts. */
  lemma IntegerFieldsSplit(K: seq<int>)
    requires |K| >= 1
    ensures Split(Join(PdfApi.IntegerTexts(K), ','), ',') == PdfApi.IntegerTexts(K)
  {
    var texts := PdfApi.IntegerTexts(K);
    forall i | 0 <= i < |texts| ensures ',' !in texts[i] {
      PdfApi.IntegerTextIsField(K[i]);
    }
    SplitJoin(texts, ',');
  }

  /** Each integer text, trimmed, converts back to its integer. */
  lemma IntegerFieldsRead(K: seq<int>)
    ensures FieldNumbers(PdfApi.IntegerTexts(K)) == PythonBridge.AsNumbers(K)
  {
    var texts := PdfApi.IntegerTexts(K);
    var values := FieldNumbers(texts);
    forall i | 0 <= i < |K| ensures values[i] == PythonBridge.AsNumbers(K)[i] {
      IntegerFieldReads(K[i]);
    }
  }

  lemma IntegerFieldReads(k: int)
    ensures JsStringToNumber(JsTrim(IntToDecimal(k))) == Finite(k as real)
  {
    IntegerTextIsTrimmed(k);
    NumberFacts.JsNumberOfIntegerText(k);
  }

  /** The text of an integer has no white space at either end. */
  lemma IntegerTextIsTrimmed(k: int)
    ensures JsTrim(IntToDecimal(k)) == IntToDecimal(k)
  {
    var t := IntToDecimal(k);
    var n: nat := if k < 0 then -k else k;
    var d := NatToDecimal(n);
    assert t[|t| - 1] == d[|d| - 1];
    assert Trimmed(t, JsSpaces);
  }

  /** `colour.slice(0, 3)` */
  function FirstThree(items: seq<JsValue>): (r: seq<JsValue>)
    ensures |r| == if |items| < 3 then |items| else 3
    ensures r == items[..|r|]
  {
    items[..if |items| < 3 then |items| else 3]
  }

  /** The parameters `replaceTextInstance` receives. Optional ones are
      `None` when the route passes `undefined`. */
  datatype ReplaceParams = ReplaceParams(
    page: Double, rect: seq<Double>, replacement: Option<string>,
    fontSize: Option<Double>, fontName: JsValue, color: Option<seq<JsValue>>,
    align: Option<Double>, fillColor: Option<seq<JsValue>>)

  /** What the route hands to `withPdfOperation`. */
  datatype ReplaceRequest = ReplaceRequest(fileName: JsValue, params: ReplaceParams)

  /** `undefined` stays absent, anything else goes through `Number`. */
  function NumberUnlessUndefined(v: JsValue): Option<Double> {
    if v.Undefined? then None else Some(ToNumber(v))
  }

  /** The normalisation of the optional fields: an undefined replacement
      stays absent (the text is removed) while any other value, null
      included, becomes its `String` text; font size and alignment go
      through `Number` unless undefined; a falsy font name becomes
      undefined; colours are kept only when they are arrays, cut to their
      first three entries. */
  function Params(body: JsValue, page: Double, rect: seq<Double>): (p: ReplaceParams)
    ensures p.page == page && p.rect == rect
    ensures p.replacement.None? <==> Get(body, "replacement").Undefined?
    ensures p.replacement.Some? ==> p.replacement.value == ToJsString(Get(body, "replacement"))
    ensures Get(body, "replacement") == Null ==> p.replacement == Some("null")
    ensures p.fontSize.Some? ==> p.fontSize.value == ToNumber(Get(body, "fontSize"))
    ensures p.align.Some? ==> p.align.value == ToNumber(Get(body, "align"))
    ensures Truthy(p.fontName) || p.fontName.Undefined?
    ensures Truthy(Get(body, "fontName")) ==> p.fontName == Get(body, "fontName")
    ensures p.color.Some? <==> Get(body, "color").Arr?
    ensures p.color.Some? ==> p.color.value == FirstThree(Get(body, "color").items)
    ensures p.fillColor.Some? <==> Get(body, "fillColor").Arr?
    ensures p.fillColor.Some? ==> p.fillColor.value == FirstThree(Get(body, "fillColor").items)
  {
    var replacement := Get(body, "replacement");
    var color := Get(body, "color");
    var fillColor := Get(body, "fillColor");
    ReplaceParams(
      page, rect,
      if replacement.Undefined? then None else Some(ToJsString(replacement)),
      NumberUnlessUndefined(Get(body, "fontSize")),
      Or(Get(body, "fontName"), Undefined),
      if color.Arr? then Some(FirstThree(color.items)) else None,
      NumberUnlessUndefined(Get(body, "align")),
      if fillColor.Arr? then Some(FirstThree(fillColor.items)) else None)
  }

  /** The checks of `POST`, in order: a null body fails to destructure; a
      missing `fileName`, `page` or `rect` answers 400; a bad rectangle
      answers 500 with the parser's message; a page that converts to NaN
      answers 500. Only a request passing all of them is handed on. */
  function Request(body: JsValue): (s: Step<ReplaceRequest>)
    ensures IsNullish(body) ==> s == Answer(HandleApiError(DestructureFailure))
    ensures !IsNullish(body) && ValidateRequired(body, Required).Invalid? ==>
      s == Answer(ValidateRequired(body, Required).error)
    ensures s.Forward? <==>
      && !IsNullish(body) && ValidateRequired(body, Required).Valid?
      && ParseRect(Get(body, "rect")).Success? && !ToNumber(Get(body, "page")).NaN?
    ensures !IsNullish(body) && ValidateRequired(body, Required).Valid? && ParseRect(Get(body, "rect")).Failure? ==>
      s == Answer(RouteError(ParseRect(Get(body, "rect")).error))
    ensures ParseRect(Get(body, "rect")).Success? && ToNumber(Get(body, "page")).NaN? && s.Answer? ==>
      IsNullish(body) || ValidateRequired(body, Required).Invalid? || s == Answer(RouteError(PageMessage))
    ensures s.Forward? ==>
      && s.args.fileName == Get(body, "fileName")
      && s.args.params == Params(body, ToNumber(Get(body, "page")), ParseRect(Get(body, "rect")).value)
  {
    if IsNullish(body) then Answer(HandleApiError(DestructureFailure))
    else
      match ValidateRequired(body, Required)
      case Invalid(error) => Answer(error)
      case Valid =>
        match ParseRect(Get(body, "rect"))
        case Failure(message) => Answer(RouteError(message))
        case Success(rect) =>
          var page := ToNumber(Get(body, "page"));
          if page.NaN? then Answer(RouteError(PageMessage))
          else Forward(ReplaceRequest(Get(body, "fileName"), Params(body, page, rect)))
  }

  /** `POST`: the checks of `Request`, then `StepReply` with the default
      message "Text updated successfully". */
  function Post(body: JsValue, run: ReplaceRequest -> Result<OperationResult, Thrown>): Response {
    StepReply(Request(body), run, DefaultMessage)
  }
}
