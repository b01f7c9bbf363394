/** `app/api/pdf/redact-text/route.ts`: the check on `targets` and what the
    route hands to `withPdfOperation`, which runs `redactText`. The route
    also passes `{ fillColor }` as a fourth argument, which `withPdfOperation`
    does not take: it never reaches `redactText`, so the redaction always
    uses the bridge's default white fill. */
module RedactTextRoute {
  import opened Wrappers
  import opened JsValues
  import opened ApiTypes
  import opened ApiUtils
  import opened PdfOperationWrapper
  import opened RouteSupport

  const TargetsMessage := "targets must be a non-empty array"
  const DefaultMessage := "Text redacted successfully"
  const Required := ["fileName", "targets"]

  /** What reaches `redactText` through `withPdfOperation`: the file name
      and the targets; there is no room for a fill colour. */
  datatype RedactRequest = RedactRequest(fileName: JsValue, targets: seq<JsValue>)

  /** The checks of `POST`, in order: a null body fails to destructure; a
      missing `fileName` or `targets` answers 400; `targets` that is not an
      array, or an empty one, answers 500. A request passing them hands on
      the targets unchanged. */
  function Request(body: JsValue): (s: Step<RedactRequest>)
    ensures IsNullish(body) ==> s == Answer(HandleApiError(DestructureFailure))
    ensures !IsNullish(body) && ValidateRequired(body, Required).Invalid? ==>
      s == Answer(ValidateRequired(body, Required).error)
    ensures var targets := Get(body, "targets");
      s.Forward? <==>
        !IsNullish(body) && ValidateRequired(body, Required).Valid? && targets.Arr? && |targets.items| > 0
    ensures var targets := Get(body, "targets");
      (!IsNullish(body) && ValidateRequired(body, Required).Valid? && !(targets.Arr? && |targets.items| > 0)) ==>
        s == Answer(RouteError(TargetsMessage))
    ensures s.Forward? ==> s.args == RedactRequest(Get(body, "fileName"), Get(body, "targets").items)
  {
    if IsNullish(body) then Answer(HandleApiError(DestructureFailure))
    else
      match ValidateRequired(body, Required)
      case Invalid(error) => Answer(error)
      case Valid =>
        var targets := Get(body, "targets");
        if !targets.Arr? || |targets.items| == 0 then Answer(RouteError(TargetsMessage))
        else Forward(RedactRequest(Get(body, "fileName"), targets.items))
  }

  /** `POST`: the checks of `Request`, then `StepReply` with the default
      message "Text redacted successfully". */
  function Post(body: JsValue, run: RedactRequest -> Result<OperationResult, Thrown>): Response {
    StepReply(Request(body), run, DefaultMessage)
  }

  /** Adding a `fillColor` to a request body changes nothing the route
      does: the same checks decide, the same arguments are handed on, and
      the same answer comes back. */
  lemma {:induction false} FillColourIgnored(props: seq<(string, JsValue)>, fill: JsValue,
                                             run: RedactRequest -> Result<OperationResult, Thrown>)
    ensures Request(Obj(props + [("fillColor", fill)])) == Request(Obj(props))
    ensures Post(Obj(props + [("fillColor", fill)]), run) == Post(Obj(props), run)
  {
    var plain := Obj(props);
    var filled := Obj(props + [("fillColor", fill)]);
    OtherKeysUnchanged(props, "fillColor", fill, "fileName");
    OtherKeysUnchanged(props, "fillColor", fill, "targets");
    assert ValidateRequired(filled, Required) == ValidateRequired(plain, Required) by {
      assert FirstMissing(filled, Required[1..]) == FirstMissing(plain, Required[1..]);
    }
  }

  /** Appending a property leaves every other key's value as it was. */
  lemma OtherKeysUnchanged(props: seq<(string, JsValue)>, key: string, v: JsValue, other: string)
    requires key != other
    ensures Get(Obj(props + [(key, v)]), other) == Get(Obj(props), other)
  {
    var extended := props + [(key, v)];
    assert extended[..|extended| - 1] == props;
  }
}
