/** `lib/python-bridge.ts`: the Next.js side of the PDF service. Each
    operation fills a `FormData` field by field, posts it, and turns the
    answer into a binary response or a `PdfApiError`. */
module PythonBridge {
  import opened Wrappers
  import opened Strings
  import opened Numbers
  import NumberFacts
  import opened JsValues
  import opened ApiTypes
  import opened Storage
  import opened PdfOperationWrapper
  import PdfProcessor
  import PdfApi
  import ApiUtils

  // ---------------------------------------------------------------------
  // Form data

  /** A file as the bridge receives it (`PdfFilePayload`). */
  datatype FilePayload = FilePayload(buffer: Bytes, filename: string, contentType: Option<string>)

  /** The names of the form fields the bridge sends. */
  datatype FieldName =
    | PdfFileKey | ImageFileKey | TextKey | XKey | YKey | PageKey | FontSizeKey | FontNameKey
    | ColorRKey | ColorGKey | ColorBKey | FillRKey | FillGKey | FillBKey | WidthKey | HeightKey
    | PageNumbersKey | NewOrderKey | TargetsKey | QueryKey | CaseSensitiveKey | WholeWordKey | MaxHitsKey
    | RectKey | ReplacementKey | AlignKey | FileNameKey | ImageKey

  /** The name a field goes out under. */
  function WireName(f: FieldName): string {
    match f
    case PdfFileKey => "pdf_file"
    case ImageFileKey => "image_file"
    case TextKey => "text"
    case XKey => "x"
    case YKey => "y"
    case PageKey => "page"
    case FontSizeKey => "font_size"
    case FontNameKey => "font_name"
    case ColorRKey => "color_r"
    case ColorGKey => "color_g"
    case ColorBKey => "color_b"
    case FillRKey => "fill_r"
    case FillGKey => "fill_g"
    case FillBKey => "fill_b"
    case WidthKey => "width"
    case HeightKey => "height"
    case PageNumbersKey => "page_numbers"
    case NewOrderKey => "new_order"
    case TargetsKey => "targets"
    case QueryKey => "query"
    case CaseSensitiveKey => "case_sensitive"
    case WholeWordKey => "whole_word"
    case MaxHitsKey => "max_hits"
    case RectKey => "rect"
    case ReplacementKey => "replacement"
    case AlignKey => "align"
    case FileNameKey => "fileName"
    case ImageKey => "image"
  }

  /** One value of a multipart form: a text field, a number sent as its
      text, or an attached file. */
  datatype FormValue = Text(text: string) | Number(number: Double) | Attachment(buffer: Bytes, filename: string, contentType: string)

  /** The text a field goes out as; a number goes out as `x.toString()`. */
  function FieldText(v: FormValue): Option<string> {
    match v
    case Text(t) => Some(t)
    case Number(d) => Some(NumberToString(d))
    case Attachment(_, _, _) => None
  }

  /** `toFileField`: the content type defaults to `application/pdf` when it
      is absent or empty. */
  function ToFileField(f: FilePayload): (v: FormValue)
    ensures v.Attachment? && v.buffer == f.buffer && v.filename == f.filename
    ensures f.contentType.None? || f.contentType.value == "" ==> v.contentType == "application/pdf"
    ensures f.contentType.Some? && f.contentType.value != "" ==> v.contentType == f.contentType.value
  {
    Attachment(f.buffer, f.filename,
      if f.contentType.Some? && f.contentType.value != "" then f.contentType.value else "application/pdf")
  }

  /** `FormData.get(key)`: the first entry under `key`. */
  function FieldValue(entries: seq<(FieldName, FormValue)>, key: FieldName): Option<FormValue>
  {
    if entries == [] then None
    else if entries[0].0 == key then Some(entries[0].1)
    else FieldValue(entries[1..], key)
  }

  /** A key that no entry carries reads as absent. */
  lemma {:induction false} NoEntry(entries: seq<(FieldName, FormValue)>, key: FieldName)
    requires forall i :: 0 <= i < |entries| ==> entries[i].0 != key
    ensures FieldValue(entries, key).None?
  {
    if entries != [] {
      NoEntry(entries[1..], key);
    }
  }

  /** Looking up a key in two batches of entries: the first batch wins. */
  lemma {:induction false} FieldValueAppend(x: seq<(FieldName, FormValue)>, t: seq<(FieldName, FormValue)>, key: FieldName)
    ensures FieldValue(x + t, key) == if FieldValue(x, key).Some? then FieldValue(x, key) else FieldValue(t, key)
  {
    if x == [] {
      assert x + t == t;
    } else {
      assert (x + t)[1..] == x[1..] + t;
      FieldValueAppend(x[1..], t, key);
    }
  }

  /** The entries `appendOptional(form, key, value)` adds: none for undefined
      or null, otherwise the value's text. */
  function OptionalEntry(key: FieldName, v: JsValue): seq<(FieldName, FormValue)> {
    if IsNullish(v) then [] else [(key, Text(ToJsString(v)))]
  }

  /** A JavaScript number as a `JsValue`, or undefined. */
  function OptNumber(n: Option<Double>): JsValue {
    if n.Some? then Num(n.value) else Undefined
  }

  /** The form being filled: its entries in the order they were appended. */
  class FormData {
    var entries: seq<(FieldName, FormValue)>

    constructor ()
      ensures entries == []
    {
      entries := [];
    }

    method Append(key: FieldName, value: FormValue)
      modifies this
      ensures entries == old(entries) + [(key, value)]
    {
      entries := entries + [(key, value)];
    }


    /** The three channels of a colour, in order. */
    method AppendColour(rKey: FieldName, gKey: FieldName, bKey: FieldName, c: Colour)
      modifies this
      ensures entries == old(entries) + [(rKey, Number(c.r)), (gKey, Number(c.g)), (bKey, Number(c.b))]
    {
      entries := entries + [(rKey, Number(c.r)), (gKey, Number(c.g)), (bKey, Number(c.b))];
    }

    /** `appendOptional(formData, key, value)`. */
    method AppendOptional(key: FieldName, v: JsValue)
      modifies this
      ensures entries == old(entries) + OptionalEntry(key, v)
    {
      if IsNullish(v) {
        return;
      }
      entries := entries + [(key, Text(ToJsString(v)))];
    }
  }

  /** `appendOptional` sends 0 and false; only undefined and null are left
      out. */
  lemma OptionalKeepsZeroAndFalse(key: FieldName)
    ensures OptionalEntry(key, Num(Finite(0.0))) == [(key, Text("0"))]
    ensures OptionalEntry(key, Bool(false)) == [(key, Text("false"))]
    ensures OptionalEntry(key, Undefined) == [] && OptionalEntry(key, Null) == []
  {
    FloorOfInteger(0);
  }

  /** `[r, g, b]`, a colour as three numbers. */
  datatype Colour = Colour(r: Double, g: Double, b: Double)

  const Black: Colour := Colour(Finite(0.0), Finite(0.0), Finite(0.0))
  const White: Colour := Colour(Finite(1.0), Finite(1.0), Finite(1.0))

  /** `FormData.get` finds the first entry under its key. */
  lemma {:induction false} FirstEntry(entries: seq<(FieldName, FormValue)>, key: FieldName, k: nat)
    requires k < |entries| && entries[k].0 == key
    requires forall j :: 0 <= j < k ==> entries[j].0 != key
    ensures FieldValue(entries, key) == Some(entries[k].1)
  {
    if k > 0 {
      FirstEntry(entries[1..], key, k - 1);
    }
  }

  /** `numbers.join(',')` for an array of numbers. */
  function NumberList(L: seq<Double>): (s: string)
  {
    Join(seq(|L|, i requires 0 <= i < |L| => NumberToString(L[i])), ',')
  }

  // ---------------------------------------------------------------------
  // The forms, one per operation

  /** The fields `addTextToPDF` sends: the page defaults to 0, the size to
      12, the font to "helv" and the colour to black. */
  function AddTextFields(pdf: FilePayload, text: string, x: Double, y: Double, page: Option<Double>,
                         fontSize: Option<Double>, fontName: Option<string>, color: Option<Colour>): seq<(FieldName, FormValue)>
  {
    var c := color.GetOr(Black);
    [(PdfFileKey, ToFileField(pdf)), (TextKey, Text(text)), (XKey, Number(x)), (YKey, Number(y)),
     (PageKey, Number(page.GetOr(Finite(0.0)))), (FontSizeKey, Number(fontSize.GetOr(Finite(12.0)))),
     (FontNameKey, Text(fontName.GetOr("helv"))),
     (ColorRKey, Number(c.r)), (ColorGKey, Number(c.g)), (ColorBKey, Number(c.b))]
  }

  method AddTextForm(pdf: FilePayload, text: string, x: Double, y: Double, page: Option<Double>,
                     fontSize: Option<Double>, fontName: Option<string>, color: Option<Colour>)
    returns (form: FormData)
    ensures fresh(form)
    ensures form.entries == AddTextFields(pdf, text, x, y, page, fontSize, fontName, color)
  {
    form := new FormData();
    form.Append(PdfFileKey, ToFileField(pdf));
    assert form.entries == [(PdfFileKey, ToFileField(pdf))];
    form.Append(TextKey, Text(text));
    form.Append(XKey, Number(x));
    form.Append(YKey, Number(y));
    form.Append(PageKey, Number(page.GetOr(Finite(0.0))));
    form.Append(FontSizeKey, Number(fontSize.GetOr(Finite(12.0))));
    form.Append(FontNameKey, Text(fontName.GetOr("helv")));
    form.AppendColour(ColorRKey, ColorGKey, ColorBKey, color.GetOr(Black));
  }

  /** Left unset, the page is 0, the size 12, the font "helv" and the colour
      black. */
  lemma AddTextDefaults(pdf: FilePayload, text: string, x: Double, y: Double)
    ensures var e := AddTextFields(pdf, text, x, y, None, None, None, None);
      && FieldValue(e, PageKey) == Some(Number(Finite(0.0)))
      && FieldValue(e, FontSizeKey) == Some(Number(Finite(12.0)))
      && FieldValue(e, FontNameKey) == Some(Text("helv"))
  {
    var e := AddTextFields(pdf, text, x, y, None, None, None, None);
    AddTextFieldKeys(pdf, text, x, y, None, None, None, None);
    AddTextEntry(e, PageKey, 4);
    AddTextEntry(e, FontSizeKey, 5);
    AddTextEntry(e, FontNameKey, 6);
  }

  /** The keys of the `addTextToPDF` form in the order they are appended. */
  const AddTextKeys := [PdfFileKey, TextKey, XKey, YKey, PageKey, FontSizeKey, FontNameKey, ColorRKey, ColorGKey, ColorBKey]

  lemma AddTextFieldKeys(pdf: FilePayload, text: string, x: Double, y: Double, page: Option<Double>,
                         fontSize: Option<Double>, fontName: Option<string>, color: Option<Colour>)
    ensures var e := AddTextFields(pdf, text, x, y, page, fontSize, fontName, color);
      |e| == |AddTextKeys| && forall i :: 0 <= i < |e| ==> e[i].0 == AddTextKeys[i]
  {
  }

  /** Every key of the `addTextToPDF` form reads back its own entry, the
      keys being distinct. */
  lemma AddTextEntry(e: seq<(FieldName, FormValue)>, key: FieldName, k: nat)
    requires |e| == |AddTextKeys| && forall i :: 0 <= i < |e| ==> e[i].0 == AddTextKeys[i]
    requires k < |e| && AddTextKeys[k] == key
    ensures FieldValue(e, key) == Some(e[k].1)
  {
    FirstEntry(e, key, k);
  }

  /** Left unset, the colour is black, (0, 0, 0). */
  lemma AddTextDefaultColour(pdf: FilePayload, text: string, x: Double, y: Double, page: Option<Double>,
                             fontSize: Option<Double>, fontName: Option<string>)
    ensures var e := AddTextFields(pdf, text, x, y, page, fontSize, fontName, None);
      && FieldValue(e, ColorRKey) == Some(Number(Finite(0.0)))
      && FieldValue(e, ColorGKey) == Some(Number(Finite(0.0)))
      && FieldValue(e, ColorBKey) == Some(Number(Finite(0.0)))
  {
    var e := AddTextFields(pdf, text, x, y, page, fontSize, fontName, None);
    AddTextFieldKeys(pdf, text, x, y, page, fontSize, fontName, None);
    AddTextEntry(e, ColorRKey, 7);
    AddTextEntry(e, ColorGKey, 8);
    AddTextEntry(e, ColorBKey, 9);
  }

  /** The default numbers go out as "0", "1" and "12". */
  lemma DefaultTexts()
    ensures FieldText(Number(Finite(0.0))) == Some("0")
    ensures FieldText(Number(Finite(1.0))) == Some("1")
    ensures FieldText(Number(Finite(12.0))) == Some("12")
  {
    FloorOfInteger(0);
    FloorOfInteger(1);
    FloorOfInteger(12);
    assert IsIntegral(Finite(12.0)) && Finite(12.0).value.Floor == 12;
    assert DigitChar(0) == '0' && DigitChar(1) == '1' && DigitChar(2) == '2';
    assert NatToDecimal(1) == "1";
    assert NatToDecimal(12) == NatToDecimal(1) + [DigitChar(2)] == "12";
  }

  /** The fields `addImageToPDF` sends: `width` and `height` only when they
      are given (neither undefined nor null). */
  function AddImageFields(pdf: FilePayload, image: FilePayload, x: Double, y: Double, page: Option<Double>,
                          width: Option<Double>, height: Option<Double>): seq<(FieldName, FormValue)>
  {
    [(PdfFileKey, ToFileField(pdf))] + [(ImageFileKey, ToFileField(image))]
    + [(XKey, Number(x))] + [(YKey, Number(y))] + [(PageKey, Number(page.GetOr(Finite(0.0))))]
    + (if width.Some? then [(WidthKey, Number(width.value))] else [])
    + (if height.Some? then [(HeightKey, Number(height.value))] else [])
  }

  method AddImageForm(pdf: FilePayload, image: FilePayload, x: Double, y: Double, page: Option<Double>,
                      width: Option<Double>, height: Option<Double>)
    returns (form: FormData)
    ensures fresh(form)
    ensures form.entries == AddImageFields(pdf, image, x, y, page, width, height)
  {
    form := new FormData();
    form.Append(PdfFileKey, ToFileField(pdf));
    assert form.entries == [(PdfFileKey, ToFileField(pdf))];
    form.Append(ImageFileKey, ToFileField(image));
    form.Append(XKey, Number(x));
    form.Append(YKey, Number(y));
    form.Append(PageKey, Number(page.GetOr(Finite(0.0))));
    ghost var base := form.entries;
    if width.Some? {
      form.Append(WidthKey, Number(width.value));
    }
    assert form.entries == base + (if width.Some? then [(WidthKey, Number(width.value))] else []);
    ghost var sized := form.entries;
    if height.Some? {
      form.Append(HeightKey, Number(height.value));
    }
    assert form.entries == sized + (if height.Some? then [(HeightKey, Number(height.value))] else []);
  }

  /** The width and height fields are present exactly when they are given,
      and then carry the number's text. */
  lemma ImageSizeSentOnlyWhenGiven(pdf: FilePayload, image: FilePayload, x: Double, y: Double,
                                   page: Option<Double>, width: Option<Double>, height: Option<Double>)
    ensures var e := AddImageFields(pdf, image, x, y, page, width, height);
      && FieldValue(e, WidthKey) == (if width.Some? then Some(Number(width.value)) else None)
      && FieldValue(e, HeightKey) == (if height.Some? then Some(Number(height.value)) else None)
  {
    var e := AddImageFields(pdf, image, x, y, page, width, height);
    var head := [(PdfFileKey, ToFileField(pdf))] + [(ImageFileKey, ToFileField(image))]
      + [(XKey, Number(x))] + [(YKey, Number(y))] + [(PageKey, Number(page.GetOr(Finite(0.0))))];
    var wv: Option<FormValue> := if width.Some? then Some(Number(width.value)) else None;
    var hv: Option<FormValue> := if height.Some? then Some(Number(height.value)) else None;
    var W := if wv.Some? then [(WidthKey, wv.value)] else [];
    var H := if hv.Some? then [(HeightKey, hv.value)] else [];
    assert e == head + W + H;
    OptionalField(head, WidthKey, wv, H);
    assert e == (head + W) + H + [];
    OptionalField(head + W, HeightKey, hv, []);
  }

  /** An entry appended only when a value is given reads back as that value,
      or as absent, when no other entry shares its key. */
  lemma {:induction false} OptionalField(head: seq<(FieldName, FormValue)>, key: FieldName, v: Option<FormValue>,
                                         tail: seq<(FieldName, FormValue)>)
    requires forall i :: 0 <= i < |head| ==> head[i].0 != key
    requires forall i :: 0 <= i < |tail| ==> tail[i].0 != key
    ensures FieldValue(head + (if v.Some? then [(key, v.value)] else []) + tail, key) == v
  {
    var e := head + (if v.Some? then [(key, v.value)] else []) + tail;
    if v.Some? {
      FirstEntry(e, key, |head|);
    } else {
      assert e == head + tail;
      NoEntry(e, key);
    }
  }

  /** `deletePages`, `reorderPages` and `extractPages`: the file and one list
      field, the numbers joined with commas. */
  function PageListFields(pdf: FilePayload, field: FieldName, L: seq<Double>): seq<(FieldName, FormValue)> {
    [(PdfFileKey, ToFileField(pdf))] + [(field, Text(NumberList(L)))]
  }

  method PageListForm(pdf: FilePayload, field: FieldName, L: seq<Double>) returns (form: FormData)
    ensures fresh(form)
    ensures form.entries == PageListFields(pdf, field, L)
  {
    form := new FormData();
    form.Append(PdfFileKey, ToFileField(pdf));
    assert form.entries == [(PdfFileKey, ToFileField(pdf))];
    form.Append(field, Text(NumberList(L)));
  }

  /** The numbers of an integer list. */
  function AsNumbers(K: seq<int>): (L: seq<Double>)
    ensures |L| == |K| && forall i :: 0 <= i < |K| ==> L[i] == Finite(K[i] as real)
  {
    seq(|K|, i requires 0 <= i < |K| => Finite(K[i] as real))
  }

  /** A list of whole numbers below 10^21 in magnitude is sent as their
      decimal texts joined with commas. */
  lemma IntegerListText(K: seq<int>)
    requires forall i :: 0 <= i < |K| ==> !UsesExponent(K[i] as real)
    ensures NumberList(AsNumbers(K)) == Join(PdfApi.IntegerTexts(K), ',')
  {
    var L := AsNumbers(K);
    forall i | 0 <= i < |K|
      ensures NumberToString(L[i]) == PdfApi.IntegerTexts(K)[i]
    {
      IntegerToString(K[i]);
    }
    assert seq(|L|, i requires 0 <= i < |L| => NumberToString(L[i])) == PdfApi.IntegerTexts(K);
  }

  /** The list field of a page-list form carries the joined list. */
  lemma PageListField(pdf: FilePayload, field: FieldName, L: seq<Double>)
    requires field != PdfFileKey
    ensures FieldValue(PageListFields(pdf, field, L), field) == Some(Text(NumberList(L)))
  {
    FirstEntry(PageListFields(pdf, field, L), field, 1);
  }

  /** The page list the bridge sends for a list of whole numbers below
      10^21 in magnitude decodes, in the service, to exactly that list. */
  lemma PageListWireRoundTrip(pdf: FilePayload, field: FieldName, K: seq<int>)
    requires field == PageNumbersKey || field == NewOrderKey
    requires forall i :: 0 <= i < |K| ==> !UsesExponent(K[i] as real)
    ensures FieldValue(PageListFields(pdf, field, AsNumbers(K)), field)
              == Some(Text(Join(PdfApi.IntegerTexts(K), ',')))
    ensures PdfApi.ParseIntList(NumberList(AsNumbers(K)), WireName(field)) == Success(K)
  {
    IntegerListText(K);
    PageListField(pdf, field, AsNumbers(K));
    PdfApi.IntListRoundTrip(K, WireName(field));
  }

  /** The fields `redactText` sends: the targets joined with commas and a
      white fill unless a fill colour is given. */
  function RedactFields(pdf: FilePayload, targets: seq<string>, fillColor: Option<Colour>): seq<(FieldName, FormValue)> {
    var f := fillColor.GetOr(White);
    [(PdfFileKey, ToFileField(pdf)), (TargetsKey, Text(Join(targets, ','))),
     (FillRKey, Number(f.r)), (FillGKey, Number(f.g)), (FillBKey, Number(f.b))]
  }

  /** The keys of the `redactText` form in the order they are appended. */
  const RedactKeys := [PdfFileKey, TargetsKey, FillRKey, FillGKey, FillBKey]

  /** Every key of the `redactText` form reads back its own entry. */
  lemma RedactEntry(pdf: FilePayload, targets: seq<string>, fillColor: Option<Colour>, k: nat)
    requires k < |RedactKeys|
    ensures var e := RedactFields(pdf, targets, fillColor);
      FieldValue(e, RedactKeys[k]) == Some(e[k].1)
  {
    var e := RedactFields(pdf, targets, fillColor);
    assert forall i :: 0 <= i < |e| ==> e[i].0 == RedactKeys[i];
    FirstEntry(e, RedactKeys[k], k);
  }

  method RedactForm(pdf: FilePayload, targets: seq<string>, fillColor: Option<Colour>) returns (form: FormData)
    ensures fresh(form)
    ensures form.entries == RedactFields(pdf, targets, fillColor)
  {
    form := new FormData();
    form.Append(PdfFileKey, ToFileField(pdf));
    assert form.entries == [(PdfFileKey, ToFileField(pdf))];
    form.Append(TargetsKey, Text(Join(targets, ',')));
    form.AppendColour(FillRKey, FillGKey, FillBKey, fillColor.GetOr(White));
  }

  /** Without a fill colour the fill is white, (1, 1, 1). */
  lemma RedactDefaultFill(pdf: FilePayload, targets: seq<string>)
    ensures var e := RedactFields(pdf, targets, None);
      && FieldValue(e, FillRKey) == Some(Number(Finite(1.0)))
      && FieldValue(e, FillGKey) == Some(Number(Finite(1.0)))
      && FieldValue(e, FillBKey) == Some(Number(Finite(1.0)))
  {
    RedactEntry(pdf, targets, None, 2);
    RedactEntry(pdf, targets, None, 3);
    RedactEntry(pdf, targets, None, 4);
  }

  /** The targets reach the service's `_parse_string_list` unchanged
      exactly when each is non-empty, unpadded and free of commas. */
  lemma TargetsWireRoundTrip(pdf: FilePayload, T: seq<string>)
    ensures FieldValue(RedactFields(pdf, T, None), TargetsKey) == Some(Text(Join(T, ',')))
    ensures PdfApi.ParseStringList(Join(T, ',')) == T <==>
      forall i :: 0 <= i < |T| ==> T[i] != "" && PyStrip(T[i]) == T[i] && ',' !in T[i]
  {
    TargetsField(pdf, T);
    PdfApi.StringListRoundTrip(T);
  }

  lemma TargetsField(pdf: FilePayload, T: seq<string>)
    ensures FieldValue(RedactFields(pdf, T, None), TargetsKey) == Some(Text(Join(T, ',')))
  {
    RedactEntry(pdf, T, None, 1);
  }

  /** The fields `searchPdfText` sends: the options only when given. */
  function SearchFields(pdf: FilePayload, query: string, caseSensitive: JsValue, wholeWord: JsValue,
                        maxHits: JsValue): seq<(FieldName, FormValue)>
  {
    [(PdfFileKey, ToFileField(pdf))] + [(QueryKey, Text(query))]
    + OptionalEntry(CaseSensitiveKey, caseSensitive)
    + OptionalEntry(WholeWordKey, wholeWord)
    + OptionalEntry(MaxHitsKey, maxHits)
  }

  method SearchForm(pdf: FilePayload, query: string, caseSensitive: JsValue, wholeWord: JsValue, maxHits: JsValue)
    returns (form: FormData)
    ensures fresh(form)
    ensures form.entries == SearchFields(pdf, query, caseSensitive, wholeWord, maxHits)
  {
    form := new FormData();
    form.Append(PdfFileKey, ToFileField(pdf));
    assert form.entries == [(PdfFileKey, ToFileField(pdf))];
    form.Append(QueryKey, Text(query));
    form.AppendOptional(CaseSensitiveKey, caseSensitive);
    form.AppendOptional(WholeWordKey, wholeWord);
    form.AppendOptional(MaxHitsKey, maxHits);
  }

  /** A rectangle, `[x0, y0, x1, y1]`. */
  datatype RectArg = RectArg(x0: Double, y0: Double, x1: Double, y1: Double)

  /** `rect.join(',')`. */
  function RectText(r: RectArg): string {
    NumberList([r.x0, r.y0, r.x1, r.y1])
  }

  /** The fields `replaceTextInstance` sends: the replacement only when it
      is given, the optional styling only when given, the colour black and
      the fill white by default. */
  function ReplaceFields(pdf: FilePayload, page: Double, rect: RectArg, replacement: Option<string>,
                         fontSize: JsValue, fontName: JsValue, align: JsValue,
                         color: Option<Colour>, fillColor: Option<Colour>): seq<(FieldName, FormValue)>
  {
    [(PdfFileKey, ToFileField(pdf))] + [(PageKey, Number(page))] + [(RectKey, Text(RectText(rect)))]
    + (if replacement.Some? then [(ReplacementKey, Text(replacement.value))] else [])
    + StyleFields(fontSize, fontName, align, color, fillColor)
  }

  /** The styling part of `replaceTextInstance`'s fields: font size, font
      name and alignment when given, then the colour and the fill. */
  function StyleFields(fontSize: JsValue, fontName: JsValue, align: JsValue,
                       color: Option<Colour>, fillColor: Option<Colour>): (e: seq<(FieldName, FormValue)>)
    ensures forall i :: 0 <= i < |e| ==> e[i].0 != ReplacementKey
  {
    var c := color.GetOr(Black);
    var f := fillColor.GetOr(White);
    OptionalEntry(FontSizeKey, fontSize)
    + OptionalEntry(FontNameKey, fontName)
    + OptionalEntry(AlignKey, align)
    + [(ColorRKey, Number(c.r)), (ColorGKey, Number(c.g)), (ColorBKey, Number(c.b))]
    + [(FillRKey, Number(f.r)), (FillGKey, Number(f.g)), (FillBKey, Number(f.b))]
  }

  method ReplaceForm(pdf: FilePayload, page: Double, rect: RectArg, replacement: Option<string>,
                     fontSize: JsValue, fontName: JsValue, align: JsValue,
                     color: Option<Colour>, fillColor: Option<Colour>)
    returns (form: FormData)
    ensures fresh(form)
    ensures form.entries == ReplaceFields(pdf, page, rect, replacement, fontSize, fontName, align, color, fillColor)
  {
    form := new FormData();
    form.Append(PdfFileKey, ToFileField(pdf));
    assert form.entries == [(PdfFileKey, ToFileField(pdf))];
    form.Append(PageKey, Number(page));
    form.Append(RectKey, Text(RectText(rect)));
    ghost var base := form.entries;
    if replacement.Some? {
      form.Append(ReplacementKey, Text(replacement.value));
    }
    assert form.entries == base + (if replacement.Some? then [(ReplacementKey, Text(replacement.value))] else []);
    ghost var styled := form.entries;
    form.AppendOptional(FontSizeKey, fontSize);
    form.AppendOptional(FontNameKey, fontName);
    form.AppendOptional(AlignKey, align);
    form.AppendColour(ColorRKey, ColorGKey, ColorBKey, color.GetOr(Black));
    form.AppendColour(FillRKey, FillGKey, FillBKey, fillColor.GetOr(White));
    StyleAppended(styled, fontSize, fontName, align, color, fillColor);
  }

  /** Appending the styling fields one by one appends `StyleFields`. */
  lemma StyleAppended(s: seq<(FieldName, FormValue)>, fontSize: JsValue, fontName: JsValue, align: JsValue,
                      color: Option<Colour>, fillColor: Option<Colour>)
    ensures var c, f := color.GetOr(Black), fillColor.GetOr(White);
      s + OptionalEntry(FontSizeKey, fontSize) + OptionalEntry(FontNameKey, fontName) + OptionalEntry(AlignKey, align)
      + [(ColorRKey, Number(c.r)), (ColorGKey, Number(c.g)), (ColorBKey, Number(c.b))]
      + [(FillRKey, Number(f.r)), (FillGKey, Number(f.g)), (FillBKey, Number(f.b))]
      == s + StyleFields(fontSize, fontName, align, color, fillColor)
  {
  }

  /** The replacement field is sent exactly when a replacement is given,
      and then carries it verbatim (an empty string included). */
  lemma ReplacementSentOnlyWhenGiven(pdf: FilePayload, page: Double, rect: RectArg, replacement: Option<string>,
                                     fontSize: JsValue, fontName: JsValue, align: JsValue,
                                     color: Option<Colour>, fillColor: Option<Colour>)
    ensures var e := ReplaceFields(pdf, page, rect, replacement, fontSize, fontName, align, color, fillColor);
      FieldValue(e, ReplacementKey) == (if replacement.Some? then Some(Text(replacement.value)) else None)
  {
    var head := [(PdfFileKey, ToFileField(pdf))] + [(PageKey, Number(page))] + [(RectKey, Text(RectText(rect)))];
    var rv: Option<FormValue> := if replacement.Some? then Some(Text(replacement.value)) else None;
    OptionalField(head, ReplacementKey, rv, StyleFields(fontSize, fontName, align, color, fillColor));
  }

  // ---------------------------------------------------------------------
  // Answers

  /** The fallback message of `ensureOk`. */
  function RequestFailedMessage(status: int): string {
    "PDF API request failed with status " + IntToDecimal(status)
  }

  /** `ensureOk(response, payload)`: it always throws a `PdfApiError` with
      the response's status. For an object payload the message is its
      `detail`, else its `error`, else the payload as JSON; for any other
      payload it is the payload's text, or the status text when the payload
      is falsy; and when that text is empty, the fallback naming the status.
      The error is never flagged as an outage. */
  function EnsureOk(status: int, statusText: string, payload: JsValue): (e: Thrown)
    ensures e.Error? && e.cls == PdfApiError
    ensures e.statusCode == Some(status) && e.isServiceUnavailable == Some(false)
    ensures IsObject(payload) && Truthy(Get(payload, "detail")) ==>
      e.message == ToJsString(Get(payload, "detail"))
    ensures IsObject(payload) && !Truthy(Get(payload, "detail")) && Truthy(Get(payload, "error")) ==>
      e.message == ToJsString(Get(payload, "error"))
    ensures IsObject(payload) && !Truthy(Get(payload, "detail")) && !Truthy(Get(payload, "error")) ==>
      e.message == JsonText(payload)
    ensures !IsObject(payload) && Truthy(payload) && ToJsString(payload) != "" ==> e.message == ToJsString(payload)
    ensures !IsObject(payload) && !Truthy(payload) && statusText != "" ==> e.message == statusText
    ensures !IsObject(payload) && !Truthy(payload) && statusText == "" ==> e.message == RequestFailedMessage(status)
  {
    var base :=
      if IsObject(payload) then Or(Or(Get(payload, "detail"), Get(payload, "error")), Str(JsonText(payload)))
      else Str(ToJsString(Or(payload, Str(statusText))));
    NewPdfApiError(ToJsString(Or(base, Str(RequestFailedMessage(status)))), Some(status), None)
  }

  /** A string payload is its own message, whatever the status. */
  lemma EnsureOkOfText(status: int, statusText: string, text: string)
    requires text != ""
    ensures EnsureOk(status, statusText, Str(text)).message == text
  {
  }

  /** `extractBinaryResponse`: the message header when there is one (an
      empty one included), and the removed count only when its header is
      present, non-empty and reads as a finite number. */
  function ExtractBinaryResponse(messageHeader: Option<string>, removedHeader: Option<string>, body: Bytes)
    : (r: BinaryResponse)
    ensures r.buffer == body && r.message == messageHeader
    ensures r.removedCount.Some? <==>
      removedHeader.Some? && removedHeader.value != "" && JsStringToNumber(removedHeader.value).Finite?
    ensures r.removedCount.Some? ==> r.removedCount.value == JsStringToNumber(removedHeader.value).value
  {
    var removed := if removedHeader.Some? && removedHeader.value != "" then JsStringToNumber(removedHeader.value) else NaN;
    BinaryResponse(body, messageHeader, if removed.Finite? then Some(removed.value) else None)
  }

  /** `response.headers.get(name)`. Header names are compared as written;
      HTTP treats them without regard to case, which is how the bridge's
      lower-case names read the service's capitalised ones. */
  function HeaderValue(h: seq<(string, string)>, name: string): (r: Option<string>)
    ensures r.Some? ==> exists i :: 0 <= i < |h| && h[i] == (name, r.value)
    ensures r.None? <==> forall i :: 0 <= i < |h| ==> h[i].0 != name
  {
    if h == [] then None
    else if h[0].0 == name then Some(h[0].1)
    else
      var r := HeaderValue(h[1..], name);
      assert r.Some? ==> exists i :: 0 <= i < |h[1..]| && h[1..][i] == (name, r.value);
      r
  }

  /** The headers the Python service writes for a result dictionary read
      back, in the bridge, as the result's message (when it is a non-empty
      string) and its removed count. */
  lemma HeadersRoundTrip(result: PdfProcessor.ProcResult, body: Bytes)
    ensures var h := PdfApi.ResultHeaders(result);
      var r := ExtractBinaryResponse(HeaderValue(h, "X-Operation-Message"), HeaderValue(h, "X-Removed-Count"), body);
      && r.message == (if result.message.Some? && result.message.value != "" then result.message else None)
      && r.removedCount == (if result.removedCount.Some? then Some(result.removedCount.value as real) else None)
  {
    var h := PdfApi.ResultHeaders(result);
    if result.removedCount.Some? {
      NumberFacts.JsNumberOfIntegerText(result.removedCount.value);
      var v := HeaderValue(h, "X-Removed-Count");
      assert v.Some?;
      assert v.value == IntToDecimal(result.removedCount.value);
    }
  }

  // ---------------------------------------------------------------------
  // postPdf

  /** What `fetch` gives back: a rejection, or a response with its status,
      its status text, its body read as text, what `JSON.parse` makes of
      that text (`None` when it is not JSON), its two result headers and
      its bytes. */
  datatype FetchOutcome =
    | Rejected(error: Thrown)
    | Answered(ok: bool, status: int, statusText: string, text: string, json: Option<JsValue>,
               messageHeader: Option<string>, removedHeader: Option<string>, body: Bytes)

  function UnavailableMessage(baseUrl: string): string {
    "PDF service unavailable at " + baseUrl + ". Please ensure the FastAPI service is running."
  }

  /** What the runtime throws when a response body is read a second time:
      a `TypeError` whose message does not mention "fetch". */
  const BodyUnusableMessage := "Body is unusable: Body has already been read"
  const BodyUnusable: Thrown := Error(TypeError, BodyUnusableMessage, None, None)

  /** The `catch` of `postPdf`: a `TypeError` whose message mentions
      "fetch" becomes a 503 flagged as an outage; anything else is thrown
      on unchanged. */
  function PostPdfCatch(e: Thrown, baseUrl: string): (r: Thrown)
    ensures e.Error? && e.cls == TypeError && Contains(e.message, "fetch") ==>
      r == Error(PdfApiError, UnavailableMessage(baseUrl), Some(503), Some(true))
    ensures !(e.Error? && e.cls == TypeError && Contains(e.message, "fetch")) ==> r == e
  {
    if e.Error? && e.cls == TypeError && Contains(e.message, "fetch") then
      NewPdfApiError(UnavailableMessage(baseUrl), Some(503), Some(true))
    else e
  }

  /** `postPdf` as written: a non-ok answer whose body is JSON throws
      `ensureOk`'s error (which the catch passes on); a non-ok answer whose
      body is not JSON fails in `response.json()`, which has consumed the
      body, so the fallback `response.text()` throws the runtime's
      `TypeError`, which the catch passes on too; an ok answer is extracted,
      and a rejection goes through the catch. */
  function PostPdf(baseUrl: string, outcome: FetchOutcome): (r: Result<BinaryResponse, Thrown>)
    ensures outcome.Answered? && outcome.ok ==>
      r == Success(ExtractBinaryResponse(outcome.messageHeader, outcome.removedHeader, outcome.body))
    ensures outcome.Answered? && !outcome.ok && outcome.json.Some? ==>
      r == Failure(EnsureOk(outcome.status, outcome.statusText, outcome.json.value))
    ensures outcome.Answered? && !outcome.ok && outcome.json.None? ==> r == Failure(BodyUnusable)
    ensures outcome.Rejected? ==> r == Failure(PostPdfCatch(outcome.error, baseUrl))
  {
    match outcome
    case Rejected(e) => Failure(PostPdfCatch(e, baseUrl))
    case Answered(ok, status, statusText, text, json, m, c, body) =>
      if !ok then
        match json
        case Some(payload) => Failure(PostPdfCatch(EnsureOk(status, statusText, payload), baseUrl))
        case None =>
          BodyUnusableIsNoFetchFailure();
          Failure(PostPdfCatch(BodyUnusable, baseUrl))
      else Success(ExtractBinaryResponse(m, c, body))
  }

  /** The runtime's message for a consumed body has no "f" at all, so the
      catch does not take it for a network failure. */
  lemma BodyUnusableIsNoFetchFailure()
    ensures !Contains(BodyUnusableMessage, "fetch")
  {
    var s := BodyUnusableMessage;
    forall i | 0 <= i <= |s| - 5 ensures !OccursAt(s, "fetch", i) {
      assert s[i..i + 5][0] == s[i];
    }
  }

  /** As written, an error answer whose body is plain text (the plain-text
      400 the editor's service sends for a page out of range, the plain-text
      500 of an exception no handler caught, or a proxy's error page)
      reaches the route's caller as a 500 carrying the runtime's message,
      whatever status and text the service sent. */
  lemma PlainTextErrorAnswers500(baseUrl: string, outcome: FetchOutcome)
    requires outcome.Answered? && !outcome.ok && outcome.json.None?
    ensures var r := PostPdf(baseUrl, outcome);
      && r.Failure?
      && ApiUtils.HandleApiError(r.error).status == 500
      && Get(ApiUtils.HandleApiError(r.error).body, "error") == Str(BodyUnusableMessage)
  {
  }

  /** `postPdf` as evidently intended: the body of an error answer is read
      once, as text, and handed to `ensureOk` parsed as JSON when it is
      JSON and as that text otherwise. Everything else is as written. */
  function PostPdfReadingTextOnce(baseUrl: string, outcome: FetchOutcome): (r: Result<BinaryResponse, Thrown>)
    ensures outcome.Answered? && !outcome.ok && outcome.json.None? ==>
      r == Failure(EnsureOk(outcome.status, outcome.statusText, Str(outcome.text)))
    ensures !(outcome.Answered? && !outcome.ok && outcome.json.None?) ==> r == PostPdf(baseUrl, outcome)
  {
    match outcome
    case Rejected(e) => Failure(PostPdfCatch(e, baseUrl))
    case Answered(ok, status, statusText, text, json, m, c, body) =>
      if !ok then
        var payload := if json.Some? then json.value else Str(text);
        Failure(PostPdfCatch(EnsureOk(status, statusText, payload), baseUrl))
      else Success(ExtractBinaryResponse(m, c, body))
  }

  /** Read once, only a network failure of `fetch` itself is reported as an
      outage; every error answer from the service keeps its own status, and
      a plain-text one its text as the message. */
  lemma OutageOnlyFromFetch(baseUrl: string, outcome: FetchOutcome)
    ensures var r := PostPdfReadingTextOnce(baseUrl, outcome);
      outcome.Answered? && !outcome.ok ==>
        && r.Failure? && r.error.Error?
        && r.error.statusCode == Some(outcome.status)
        && r.error.isServiceUnavailable == Some(false)
    ensures var r := PostPdfReadingTextOnce(baseUrl, outcome);
      outcome.Answered? && !outcome.ok && outcome.json.None? && outcome.text != "" ==>
        r.Failure? && r.error.message == outcome.text
  {
    if outcome.Answered? && !outcome.ok && outcome.json.None? && outcome.text != "" {
      EnsureOkOfText(outcome.status, outcome.statusText, outcome.text);
    }
  }

  /** The service's plain-text 400 for a page out of range: as written the
      caller sees a 500 with the runtime's message; read once, a 400 with
      the service's text. */
  lemma InvalidPageAnswer(baseUrl: string)
    ensures var outcome := Answered(false, 400, "Bad Request", "Invalid page number: 7", None, None, None, []);
      && ApiUtils.HandleApiError(PostPdf(baseUrl, outcome).error).status == 500
      && ApiUtils.HandleApiError(PostPdfReadingTextOnce(baseUrl, outcome).error).status == 400
      && PostPdfReadingTextOnce(baseUrl, outcome).error.message == "Invalid page number: 7"
  {
    var outcome := Answered(false, 400, "Bad Request", "Invalid page number: 7", None, None, None, []);
    PlainTextErrorAnswers500(baseUrl, outcome);
    OutageOnlyFromFetch(baseUrl, outcome);
  }

  /** An outage reaches the route's caller as a 503 with the flag set. */
  lemma OutageAnswers503(baseUrl: string, message: string)
    requires Contains(message, "fetch")
    ensures var e := PostPdfCatch(Error(TypeError, message, None, None), baseUrl);
      && ApiUtils.HandleApiError(e).status == 503
      && Get(ApiUtils.HandleApiError(e).body, "isServiceUnavailable") == Bool(true)
  {
  }
}
