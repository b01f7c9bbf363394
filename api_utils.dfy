/** The route helpers of `lib/api-utils.ts`: required-field validation, the
    mapping of a thrown value to an error response, and the success
    envelope. */
module ApiUtils {
  import opened Wrappers
  import opened JsValues
  import opened ApiTypes

  // ---------------------------------------------------------------------
  // validateRequired

  /** A field counts as missing when it is undefined, null or the empty
      string; 0, false, [] and {} are present. */
  predicate IsMissing(v: JsValue) {
    v.Undefined? || v.Null? || v == Str("")
  }

  /** The position of the first missing field, scanning in order. */
  function FirstMissing(data: JsValue, fields: seq<string>): (r: Option<nat>)
    ensures r.None? <==> forall i :: 0 <= i < |fields| ==> !IsMissing(Get(data, fields[i]))
    ensures r.Some? ==> r.value < |fields| && IsMissing(Get(data, fields[r.value]))
    ensures r.Some? ==> forall j :: 0 <= j < r.value ==> !IsMissing(Get(data, fields[j]))
  {
    if fields == [] then None
    else if IsMissing(Get(data, fields[0])) then Some(0)
    else match FirstMissing(data, fields[1..])
      case None => None
      case Some(k) => Some(k + 1)
  }

  datatype Validation = Valid | Invalid(error: Response)

  function RequiredMessage(field: string): string {
    field + " is required"
  }

  /** `validateRequired(data, fields)`: valid exactly when no listed field is
      missing; otherwise a 400 response naming the first missing field. */
  function ValidateRequired(data: JsValue, fields: seq<string>): (v: Validation)
    ensures v.Valid? <==> forall i :: 0 <= i < |fields| ==> !IsMissing(Get(data, fields[i]))
    ensures v.Invalid? ==>
      exists k :: IsFirstMissing(data, fields, k) && v.error == MissingFieldResponse(fields[k])
  {
    match FirstMissing(data, fields)
    case None => Valid
    case Some(k) => Invalid(MissingFieldResponse(fields[k]))
  }

  /** `fields[k]` is missing and every field before it is present. */
  predicate IsFirstMissing(data: JsValue, fields: seq<string>, k: int) {
    && 0 <= k < |fields|
    && IsMissing(Get(data, fields[k]))
    && forall j :: 0 <= j < k ==> !IsMissing(Get(data, fields[j]))
  }

  function MissingFieldResponse(field: string): Response {
    Json(400, Obj([("error", Str(RequiredMessage(field)))]))
  }

  /** Zero and false are values, not missing fields. */
  lemma ZeroAndFalseArePresent(name: string, other: seq<(string, JsValue)>)
    ensures ValidateRequired(Obj(other + [(name, Num(Numbers.Finite(0.0)))]), [name]).Valid?
    ensures ValidateRequired(Obj(other + [(name, Bool(false))]), [name]).Valid?
    ensures ValidateRequired(Obj(other + [(name, Str(""))]), [name]).Invalid?
  {
    var a := other + [(name, Num(Numbers.Finite(0.0)))];
    var b := other + [(name, Bool(false))];
    var c := other + [(name, Str(""))];
    assert a[|a| - 1].0 == name && b[|b| - 1].0 == name && c[|c| - 1].0 == name;
  }

  // ---------------------------------------------------------------------
  // handleApiError

  /** `'statusCode' in error` for a thrown object. */
  predicate CarriesStatusCode(e: Thrown) {
    !e.ApiError? && e.statusCode.Some? && (e.Error? || e.isObject)
  }

  /** `error.message` for an `Error`, else the fixed fallback text. */
  function ErrorMessage(e: Thrown): string {
    if e.NonError? then "An unknown error occurred" else e.message
  }

  /** `handleApiError(error)`: an `ApiError` answers with its own status and
      availability flag; another object carrying a `statusCode` answers with
      that status (500 when it is 0) and its availability flag (false when
      absent); anything else answers 500 without the flag. The body's `error`
      is the error's message, or the fixed fallback for a non-`Error`. */
  function ErrorBody(message: string, unavailable: Option<bool>): (b: JsValue)
    ensures Get(b, "error") == Str(message)
    ensures unavailable.Some? ==> Get(b, "isServiceUnavailable") == Bool(unavailable.value)
    ensures unavailable.None? ==> !HasKey(b, "isServiceUnavailable")
  {
    var first := [("error", Str(message))];
    match unavailable
    case None => Obj(first)
    case Some(u) =>
      var props := first + [("isServiceUnavailable", Bool(u))];
      assert props[..1] == first;
      assert props[1].0[0] != "error"[0];
      assert Lookup(first, "error") == Str(message);
      assert Lookup(props, "error") == Lookup(props[..1], "error");
      Obj(props)
  }

  function HandleApiError(e: Thrown): (r: Response)
    ensures Get(r.body, "error") == Str(ErrorMessage(e))
    ensures e.ApiError? ==> (r.status == e.status
      && Get(r.body, "isServiceUnavailable") == Bool(e.unavailable))
    ensures CarriesStatusCode(e) ==> (r.status == (if e.statusCode.value == 0 then 500 else e.statusCode.value)
      && Get(r.body, "isServiceUnavailable") == Bool(e.isServiceUnavailable == Some(true)))
    ensures !e.ApiError? && !CarriesStatusCode(e) ==> r.status == 500 && !HasKey(r.body, "isServiceUnavailable")
  {
    var message := ErrorMessage(e);
    if e.ApiError? then
      Json(e.status, ErrorBody(message, Some(e.unavailable)))
    else if CarriesStatusCode(e) then
      var status := if e.statusCode.value == 0 then 500 else e.statusCode.value;
      Json(status, ErrorBody(message, Some(e.isServiceUnavailable == Some(true))))
    else
      Json(500, ErrorBody(message, None))
  }

  /** Every thrown value answers either with the status it carries or 500. */
  lemma HandleApiErrorStatus(e: Thrown)
    ensures var s := HandleApiError(e).status;
      s == 500 || (e.ApiError? && s == e.status) || (!e.ApiError? && e.statusCode == Some(s))
  {
  }

  /** A plain `new Error(m)`, the form every route uses for its own checks
      other than required fields, answers 500 with `m`. */
  lemma PlainErrorIs500(m: string)
    ensures HandleApiError(NewError(m)) == Json(500, ErrorBody(m, None))
  {
  }

  // ---------------------------------------------------------------------
  // createSuccessResponse

  /** `createSuccessResponse(data)`: `{success: true, ...data}` with status
      200; a property of `data` wins over the leading `success`. */
  function CreateSuccessResponse(data: seq<(string, JsValue)>): (r: Response)
    ensures r.status == 200 && r.body.Obj?
    ensures forall k :: HasKey(Obj(data), k) ==> Get(r.body, k) == Get(Obj(data), k)
    ensures !HasKey(Obj(data), "success") ==> Get(r.body, "success") == Bool(true)
  {
    var props := [("success", Bool(true))] + data;
    LookupAppend([("success", Bool(true))], data);
    Json(200, Obj(props))
  }

  /** Reading a key of a concatenation: the right part wins when it has the
      key, otherwise the left part answers. */
  lemma {:induction false} LookupAppend(a: seq<(string, JsValue)>, b: seq<(string, JsValue)>)
    ensures forall k :: HasKey(Obj(b), k) ==> Lookup(a + b, k) == Lookup(b, k)
    ensures forall k :: !HasKey(Obj(b), k) ==> Lookup(a + b, k) == Lookup(a, k)
  {
    if b != [] {
      var b' := b[..|b| - 1];
      assert (a + b)[..|a + b| - 1] == a + b';
      LookupAppend(a, b');
      forall k | HasKey(Obj(b), k) && b[|b| - 1].0 != k
        ensures HasKey(Obj(b'), k)
      {
        var i :| 0 <= i < |b| && b[i].0 == k;
        assert b'[i].0 == k;
      }
      forall k | HasKey(Obj(b'), k)
        ensures HasKey(Obj(b), k)
      {
        var i :| 0 <= i < |b'| && b'[i].0 == k;
        assert b[i].0 == k;
      }
    } else {
      assert a + b == a;
    }
  }
}
