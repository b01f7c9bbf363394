/** `app/api/pdf/search-text/route.ts`: the coercion of the search options
    and the mapping of the service's search result to the route's answer.
    The download of the file and the bridge's `searchPdfText` call are one
    input here: what they give back for the arguments. */
module SearchTextRoute {
  import opened Wrappers
  import opened Strings
  import opened Numbers
  import opened JsValues
  import opened ApiTypes
  import opened ApiUtils
  import opened RouteSupport

  const SearchFailedMessage := "Search operation failed"
  const Required := ["fileName", "query"]

  /** What the route downloads and hands to `searchPdfText`. */
  datatype SearchRequest = SearchRequest(
    fileName: JsValue, query: JsValue, caseSensitive: bool, wholeWord: bool, maxHits: Option<Double>)

  /** The checks and coercions of `POST`: a null body fails to destructure;
      a missing `fileName` or `query` answers 400; otherwise the two flags
      become their truthiness and `maxHits` is passed on only when its type
      is `number`. */
  function Request(body: JsValue): (s: Step<SearchRequest>)
    ensures IsNullish(body) ==> s == Answer(HandleApiError(DestructureFailure))
    ensures !IsNullish(body) && ValidateRequired(body, Required).Invalid? ==>
      s == Answer(ValidateRequired(body, Required).error)
    ensures s.Forward? <==> !IsNullish(body) && ValidateRequired(body, Required).Valid?
    ensures s.Forward? ==>
      && s.args.fileName == Get(body, "fileName") && s.args.query == Get(body, "query")
      && (s.args.caseSensitive <==> Truthy(Get(body, "caseSensitive")))
      && (s.args.wholeWord <==> Truthy(Get(body, "wholeWord")))
      && (s.args.maxHits.Some? <==> IsNumber(Get(body, "maxHits")))
      && (s.args.maxHits.Some? ==> Num(s.args.maxHits.value) == Get(body, "maxHits"))
  {
    if IsNullish(body) then Answer(HandleApiError(DestructureFailure))
    else
      match ValidateRequired(body, Required)
      case Invalid(error) => Answer(error)
      case Valid =>
        var maxHits := Get(body, "maxHits");
        Forward(SearchRequest(Get(body, "fileName"), Get(body, "query"),
                              Truthy(Get(body, "caseSensitive")), Truthy(Get(body, "wholeWord")),
                              if IsNumber(maxHits) then Some(maxHits.n) else None))
  }

  /** The `data` the route answers with: the service's `match_count`
      renamed to `matchCount`. */
  function MatchData(result: JsValue): (d: JsValue)
    ensures Get(d, "query") == Get(result, "query")
    ensures Get(d, "matches") == Get(result, "matches")
    ensures Get(d, "matchCount") == Get(result, "match_count")
  {
    var props := [("query", Get(result, "query")), ("matches", Get(result, "matches")),
                  ("matchCount", Get(result, "match_count"))];
    var two := props[..2];
    assert two[..1] == [props[0]];
    assert props[2].0[5] != "matches"[5];
    assert props[1].0[0] != "query"[0] && props[2].0[0] != "query"[0];
    assert Lookup(props, "matches") == Lookup(two, "matches");
    assert Lookup(props, "query") == Lookup(two, "query") == Lookup(two[..1], "query");
    Obj(props)
  }

  /** What the route makes of the search result: when `result?.success` is
      falsy it throws an `Error` carrying the result's `error`, or
      "Search operation failed" when that is falsy, and answers 500;
      otherwise it answers 200 with the renamed data and the message
      "Found N matches". */
  function SearchReply(result: JsValue): (r: Response)
    ensures !Truthy(Get(result, "success")) ==>
      r == RouteError(ToJsString(Or(Get(result, "error"), Str(SearchFailedMessage))))
    ensures Truthy(Get(result, "success")) ==>
      && r.status == 200 && Get(r.body, "success") == Bool(true)
      && Get(r.body, "data") == MatchData(result)
      && Get(r.body, "message") == Str("Found " + ToJsString(Get(result, "match_count")) + " matches")
  {
    if !Truthy(Get(result, "success")) then
      RouteError(ToJsString(Or(Get(result, "error"), Str(SearchFailedMessage))))
    else
      var data := [("data", MatchData(result)),
                   ("message", Str("Found " + ToJsString(Get(result, "match_count")) + " matches"))];
      assert data[..1] == [data[0]];
      assert data[1].0[0] != "data"[0];
      assert Lookup([data[0]], "data") == MatchData(result);
      assert Lookup(data, "data") == Lookup(data[..1], "data");
      assert data[0].0[0] != "success"[0] && data[1].0[0] != "success"[0];
      assert HasKey(Obj(data), "data") && HasKey(Obj(data), "message");
      CreateSuccessResponse(data)
  }

  /** `POST`, given what the download and `searchPdfText` give back for the
      arguments: a request stopped by the checks answers as they decided; a
      thrown error answers through `handleApiError`; a result answers as
      `SearchReply` says. */
  function Post(body: JsValue, search: SearchRequest -> Result<JsValue, Thrown>): (r: Response)
    ensures Request(body).Answer? ==> r == Request(body).response
    ensures Request(body).Forward? ==>
      var outcome := search(Request(body).args);
      && (outcome.Failure? ==> r == HandleApiError(outcome.error))
      && (outcome.Success? ==> r == SearchReply(outcome.value))
      && (outcome.Success? && !Truthy(Get(outcome.value, "success")) ==> r.status == 500)
  {
    match Request(body)
    case Answer(response) => response
    case Forward(args) =>
      match search(args)
      case Failure(e) => HandleApiError(e)
      case Success(result) => SearchReply(result)
  }

  /** A successful search reporting `n` matches, fewer than 10^21, says
      "Found n matches" and carries `matchCount` n. */
  lemma MatchCountMessage(result: JsValue, n: nat)
    requires Truthy(Get(result, "success")) && Get(result, "match_count") == Num(Finite(n as real))
    requires !UsesExponent(n as real)
    ensures Get(SearchReply(result).body, "message") == Str("Found " + NatToDecimal(n) + " matches")
    ensures Get(Get(SearchReply(result).body, "data"), "matchCount") == Num(Finite(n as real))
  {
    IntegerToString(n);
  }

  /** A result without `success` (or none at all) fails with the fixed
      message when it has no `error` either. */
  lemma MissingResultFails(result: JsValue)
    requires !HasKey(result, "success") && !HasKey(result, "error")
    ensures SearchReply(result) == RouteError(SearchFailedMessage)
  {
    LookupAbsent(result, "success");
    LookupAbsent(result, "error");
  }
}
