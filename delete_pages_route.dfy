/** `app/api/pdf/delete-pages/route.ts`: the checks on `pageNumbers` and
    what the route hands to `withPdfOperation`, which runs `deletePages`. */
module DeletePagesRoute {
  import opened Wrappers
  import opened Strings
  import opened Numbers
  import opened JsValues
  import opened ApiTypes
  import opened ApiUtils
  import opened PdfOperationWrapper
  import opened RouteSupport
  import PythonBridge
  import PdfApi

  const NotArrayMessage := "pageNumbers must be an array"
  const InvalidNumbersMessage := "pageNumbers must be an array of valid numbers"
  const DefaultMessage := "Pages deleted successfully"
  const Required := ["fileName", "pageNumbers"]

  /** What the route hands to `withPdfOperation`. */
  datatype DeleteRequest = DeleteRequest(fileName: JsValue, pages: seq<Double>)

  /** The checks of `POST`, in order: a null body fails to destructure; a
      missing `fileName` or `pageNumbers` answers 400; a `pageNumbers` that
      is not an array answers 500; an empty list, or one with an entry
      `Number` turns into NaN, answers 500. A request passing them hands on
      every converted entry, in order and with duplicates kept. */
  function Request(body: JsValue): (s: Step<DeleteRequest>)
    ensures IsNullish(body) ==> s == Answer(HandleApiError(DestructureFailure))
    ensures !IsNullish(body) && ValidateRequired(body, Required).Invalid? ==>
      s == Answer(ValidateRequired(body, Required).error)
    ensures var list := Get(body, "pageNumbers");
      s.Forward? <==>
        && !IsNullish(body) && ValidateRequired(body, Required).Valid?
        && list.Arr? && |list.items| > 0 && NoNaN(ItemNumbers(list.items))
    ensures var list := Get(body, "pageNumbers");
      !IsNullish(body) && ValidateRequired(body, Required).Valid? && !list.Arr? ==>
        s == Answer(RouteError(NotArrayMessage))
    ensures var list := Get(body, "pageNumbers");
      (!IsNullish(body) && ValidateRequired(body, Required).Valid? && list.Arr?
        && (|list.items| == 0 || !NoNaN(ItemNumbers(list.items)))) ==>
        s == Answer(RouteError(InvalidNumbersMessage))
    ensures s.Forward? ==>
      var items := Get(body, "pageNumbers").items;
      && s.args.fileName == Get(body, "fileName")
      && |s.args.pages| == |items|
      && forall i :: 0 <= i < |items| ==> s.args.pages[i] == ToNumber(items[i])
  {
    if IsNullish(body) then Answer(HandleApiError(DestructureFailure))
    else
      match ValidateRequired(body, Required)
      case Invalid(error) => Answer(error)
      case Valid =>
        var list := Get(body, "pageNumbers");
        if !list.Arr? then Answer(RouteError(NotArrayMessage))
        else
          var pages := ItemNumbers(list.items);
          if |pages| == 0 || !NoNaN(pages) then Answer(RouteError(InvalidNumbersMessage))
          else Forward(DeleteRequest(Get(body, "fileName"), pages))
  }

  /** `POST`: the checks of `Request`, then `StepReply` with the default
      message "Pages deleted successfully". */
  function Post(body: JsValue, run: DeleteRequest -> Result<OperationResult, Thrown>): Response {
    StepReply(Request(body), run, DefaultMessage)
  }

  /** The route lets through numbers that do not print as integers (1.5,
      Infinity from the text "Infinity", or 1e21, which prints as "1e+21"),
      but once the bridge has joined the list with commas the service's
      integer parse refuses it with a 400. */
  lemma NonIntegerRefusedByService(pages: seq<Double>, k: nat)
    requires k < |pages| && !PrintsAsInteger(pages[k])
    ensures PdfApi.ParseIntList(PythonBridge.NumberList(pages), "page_numbers")
              == Failure(PdfApi.HttpError(400, PdfApi.InvalidIntListMessage("page_numbers")))
  {
    var texts := seq(|pages|, i requires 0 <= i < |pages| => NumberToString(pages[i]));
    var c := ForeignCharacter(pages[k]);
    assert c in texts[k];
    CharInJoin(texts, ',', k, c);
    var parts := Split(Join(texts, ','), ',');
    var j := FieldOfJoin(parts, ',', c);
    FieldRefused(parts[j], c);
    NonBlankKeeps(parts, j);
    var fields := PdfApi.NonBlank(parts);
    var m :| 0 <= m < |fields| && fields[m] == parts[j];
    assert PdfApi.FieldInt(fields[m]).None?;
  }

  /** A field holding such a character is not blank, and `int()` refuses
      it. */
  lemma FieldRefused(f: string, c: char)
    requires c in f && !IsPySpace(c) && !IsPyIntChar(c)
    ensures !PdfApi.IsBlank(f) && PdfApi.FieldInt(f).None?
  {
    TrimKeeps(f, PySpaces, c);
  }

  /** A character of one part is a character of the joined text. */
  lemma {:induction false} CharInJoin(parts: seq<string>, sep: char, k: nat, c: char)
    requires k < |parts| && c in parts[k]
    ensures c in Join(parts, sep)
    decreases |parts|
  {
    if |parts| > 1 {
      if k == 0 {
        assert Join(parts, sep) == parts[0] + ([sep] + Join(parts[1..], sep));
      } else {
        CharInJoin(parts[1..], sep, k - 1, c);
        assert Join(parts, sep) == (parts[0] + [sep]) + Join(parts[1..], sep);
      }
    }
  }

  /** A character other than the separator lies in one of the fields. */
  lemma {:induction false} FieldOfJoin(parts: seq<string>, sep: char, c: char) returns (j: nat)
    requires c != sep && c in Join(parts, sep)
    ensures j < |parts| && c in parts[j]
    decreases |parts|
  {
    if |parts| == 1 {
      j := 0;
    } else {
      var rest := Join(parts[1..], sep);
      assert Join(parts, sep) == parts[0] + [sep] + rest;
      if c in parts[0] {
        j := 0;
      } else {
        assert c in rest;
        var j' := FieldOfJoin(parts[1..], sep, c);
        j := j' + 1;
      }
    }
  }

  /** A field that is not blank survives the blank filter. */
  lemma {:induction false} NonBlankKeeps(parts: seq<string>, j: nat)
    requires j < |parts| && !PdfApi.IsBlank(parts[j])
    ensures parts[j] in PdfApi.NonBlank(parts)
    decreases |parts|
  {
    assert PdfApi.NonBlank(parts) == (if PdfApi.IsBlank(parts[0]) then [] else [parts[0]]) + PdfApi.NonBlank(parts[1..]);
    if j > 0 {
      NonBlankKeeps(parts[1..], j - 1);
    }
  }
}
