/** What the editing routes under `app/api/pdf` share: a request is either
    answered before any work is done or handed on with its normalised
    arguments, and the outcome of `withPdfOperation` becomes either the
    success envelope with the new file name and a message, or the error
    answer of `handleApiError`. */
module RouteSupport {
  import opened Wrappers
  import opened Numbers
  import opened JsValues
  import opened ApiTypes
  import opened ApiUtils
  import opened PdfOperationWrapper

  /** A request after the route's checks: answered already, or handed on. */
  datatype Step<A> = Answer(response: Response) | Forward(args: A)

  /** No entry is NaN: `!values.some((value) => Number.isNaN(value))`. */
  predicate NoNaN(values: seq<Double>) {
    forall i :: 0 <= i < |values| ==> !values[i].NaN?
  }

  /** `items.map((value) => Number(value))` */
  function ItemNumbers(items: seq<JsValue>): (v: seq<Double>)
    ensures |v| == |items| && forall i :: 0 <= i < |items| ==> v[i] == ToNumber(items[i])
  {
    seq(|items|, i requires 0 <= i < |items| => ToNumber(items[i]))
  }

  /** The answer to `new Error(message)` thrown inside a route's `try`. */
  function RouteError(message: string): (r: Response)
    ensures r.status == 500 && Get(r.body, "error") == Str(message)
    ensures !HasKey(r.body, "isServiceUnavailable")
  {
    HandleApiError(NewError(message))
  }

  /** Destructuring `const { ... } = body` throws a `TypeError` when the
      parsed body is null; the engine's message text is not modelled. */
  const DestructureFailure: Thrown := Error(TypeError, "Cannot destructure the request body", None, None)

  /** `result.message || fallback` */
  function MessageOr(message: Option<string>, fallback: string): string {
    if message.Some? && message.value != "" then message.value else fallback
  }

  /** `createSuccessResponse({ fileName, message })` */
  function FileAnswer(fileName: string, message: string): (r: Response)
    ensures r.status == 200 && Get(r.body, "success") == Bool(true)
    ensures Get(r.body, "fileName") == Str(fileName) && Get(r.body, "message") == Str(message)
  {
    var data := [("fileName", Str(fileName)), ("message", Str(message))];
    assert data[..1] == [("fileName", Str(fileName))];
    assert Lookup([("fileName", Str(fileName))], "fileName") == Str(fileName);
    assert data[0].0 == "fileName" && data[1].0 == "message";
    assert "fileName"[0] != "success"[0] && "message"[0] != "success"[0];
    CreateSuccessResponse(data)
  }

  /** The end of an editing route: a result of `withPdfOperation` answers
      200 with the new file name and the operation's message, or the
      route's own message when the operation reported none or an empty one;
      anything thrown answers through `handleApiError`. */
  function OperationReply(outcome: Result<OperationResult, Thrown>, fallback: string): (r: Response)
    ensures outcome.Success? ==>
      && r.status == 200 && Get(r.body, "success") == Bool(true)
      && Get(r.body, "fileName") == Str(outcome.value.fileName)
      && Get(r.body, "message") == Str(MessageOr(outcome.value.message, fallback))
    ensures outcome.Failure? ==> r == HandleApiError(outcome.error)
  {
    match outcome
    case Success(result) => FileAnswer(result.fileName, MessageOr(result.message, fallback))
    case Failure(e) => HandleApiError(e)
  }

  /** An editing route's `POST` once its checks have decided: a request
      they answered keeps that answer; a handed-on one answers as
      `OperationReply` says for what `withPdfOperation` does with its
      arguments, with the route's own default message. */
  function StepReply<A>(step: Step<A>, run: A -> Result<OperationResult, Thrown>, fallback: string): (r: Response)
    ensures step.Answer? ==> r == step.response
    ensures step.Forward? ==>
      var outcome := run(step.args);
      && (outcome.Success? ==>
            && r.status == 200 && Get(r.body, "fileName") == Str(outcome.value.fileName)
            && Get(r.body, "message") == Str(MessageOr(outcome.value.message, fallback)))
      && (outcome.Failure? ==> r == HandleApiError(outcome.error))
  {
    match step
    case Answer(response) => response
    case Forward(args) => OperationReply(run(args), fallback)
  }
}
