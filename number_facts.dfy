/** What the number readers and printers of `Numbers` make of particular
    texts and values: integer and decimal texts read back as their values,
    the non-decimal literals `Number` accepts, the words and underscores
    Python's `float` accepts, and the two notations of `toString`. */
module NumberFacts {
  import opened Wrappers
  import opened Strings
  import opened Numbers

  /** A sign in front of a "0x", "0o" or "0b" literal makes it NaN. */
  lemma {:induction false} SignedRadixIsNaN(s: string)
    requires var t := JsTrim(s); |t| >= 3 && IsSign(t[0]) && t[1] == '0' && RadixMark(t[2]) != 0
    ensures JsStringToNumber(s).NaN?
  {
    TrimmedSignedRadix(JsTrim(s));
  }

  lemma {:induction false} TrimmedSignedRadix(t: string)
    requires |t| >= 3 && IsSign(t[0]) && t[1] == '0' && RadixMark(t[2]) != 0
    ensures JsNumberOfTrimmed(t).NaN?
  {
    SignedRadixIsNotDecimal(t);
    assert t[1] != "Infinity"[1] && t[1] != "+Infinity"[1];
  }

  /** A sign followed by a "0x", "0o" or "0b" prefix is no decimal literal. */
  lemma {:induction false} SignedRadixIsNotDecimal(t: string)
    requires |t| >= 3 && IsSign(t[0]) && t[1] == '0' && RadixMark(t[2]) != 0
    ensures SignedDecimal(t).None?
  {
    var u := Unsigned(t);
    assert u == t[1..] && u[1] == t[2];
    var k := FindFirst(u, IsExponentMark);
    assert k >= 2;
    var m := u[..k];
    var j := FindFirst(m, IsDot);
    assert j >= 2 && m[..j][1] == u[1];
    assert !AllDigits(m[..j]);
  }

  /** The decimal text of an integer converts back to that integer. */
  lemma {:induction false} JsNumberOfIntegerText(i: int)
    ensures JsStringToNumber(IntToDecimal(i)) == Finite(i as real)
  {
    var t := IntToDecimal(i);
    var n: nat := if i < 0 then -i else i;
    var d := NatToDecimal(n);
    assert t[|t| - 1] == d[|d| - 1];
    assert IsDigit(t[|t| - 1]);
    assert Trimmed(t, JsSpaces);
    assert t != "Infinity" && t != "+Infinity" && t != "-Infinity";
    assert i >= 0 ==> t == d;
    assert i < 0 ==> t[0] == '-' && t[1..] == d && t[1] == d[0];
    assert RadixLiteral(t).None?;
    assert !(|t| >= 3 && IsSign(t[0]) && t[1] == '0');
    SignedDecimalOfInteger(i);
  }

  /** White space around the text does not change what `Number` makes of
      it. */
  lemma {:induction false} JsNumberIgnoresSpace(pad: string, t: string)
    requires forall i :: 0 <= i < |pad| ==> IsJsSpace(pad[i])
    requires t != [] && !IsJsSpace(t[0]) && !IsJsSpace(t[|t| - 1])
    ensures JsStringToNumber(pad + t + pad) == JsStringToNumber(t)
  {
    TrimPadded(pad, t, JsSpaces);
    assert JsTrim(pad + t + pad) == t;
    assert JsTrim(t) == t;
  }

  /** Trimmed text that starts with a digit is read as a non-decimal
      literal if it is one and as a decimal literal otherwise. */
  lemma {:induction false} JsNumberOfDigitText(t: string)
    requires JsTrim(t) == t && t != [] && IsDigit(t[0])
    ensures JsStringToNumber(t) ==
      match RadixLiteral(t)
      case Some(n) => Finite(n as real)
      case None => (match SignedDecimal(t) case Some(v) => Finite(v) case None => NaN)
  {
    assert t[0] != "Infinity"[0] && t[0] != "+Infinity"[0] && t[0] != "-Infinity"[0];
  }

  /** Text whose trimmed form is an unsigned "0x", "0o" or "0b" literal
      converts to that literal's value in its base. */
  lemma {:induction false} JsNumberOfRadixText(s: string)
    requires var t := JsTrim(s);
      |t| >= 3 && t[0] == '0' && RadixMark(t[1]) != 0 && AllRadixDigits(t[2..], RadixMark(t[1]))
    ensures var t := JsTrim(s);
      JsStringToNumber(s) == Finite(RadixValue(t[2..], RadixMark(t[1])) as real)
  {
    var t := JsTrim(s);
    assert t[0] != "Infinity"[0] && t[0] != "+Infinity"[0] && t[0] != "-Infinity"[0];
  }

  /** `Number(" 0x1A ")` is 26. */
  lemma {:induction false} HexExample()
    ensures JsStringToNumber(" 0x1A ") == Finite(26.0)
  {
    PaddedHexTrim();
    HexDigitsValue();
    JsNumberOfRadixText(" 0x1A ");
  }

  lemma {:induction false} PaddedHexTrim()
    ensures JsTrim(" 0x1A ") == "0x1A"
  {
    TrimPadded(" ", "0x1A", JsSpaces);
    assert " " + "0x1A" + " " == " 0x1A ";
  }

  lemma {:induction false} HexDigitsValue()
    ensures "0x1A"[2..] == "1A" && RadixMark("0x1A"[1]) == 16 && RadixValue("1A", 16) == 26
  {
    assert "1A"[..1] == "1";
    assert RadixValue("1", 16) == 1 by { assert "1"[..0] == ""; }
  }

  /** `Number("0o17")` is 15. */
  lemma {:induction false} OctalExample()
    ensures JsStringToNumber("0o17") == Finite(15.0)
  {
    var t := "0o17";
    assert JsTrim(t) == t by { assert Trimmed(t, JsSpaces); }
    assert t[2..] == "17" && RadixMark(t[1]) == 8;
    assert RadixValue("17", 8) == 15 by {
      assert "17"[..1] == "1";
      assert RadixValue("1", 8) == 1 by { assert "1"[..0] == ""; }
    }
    JsNumberOfRadixText(t);
  }

  /** `Number("0b101")` is 5. */
  lemma {:induction false} BinaryExample()
    ensures JsStringToNumber("0b101") == Finite(5.0)
  {
    var t := "0b101";
    assert JsTrim(t) == t by { assert Trimmed(t, JsSpaces); }
    assert t[2..] == "101" && RadixMark(t[1]) == 2;
    assert RadixValue("101", 2) == 5 by {
      assert "101"[..2] == "10" && "10"[..1] == "1" && "1"[..0] == "";
    }
    JsNumberOfRadixText(t);
  }

  /** `Number("-0x1A")` is NaN: a sign before the prefix is not allowed. */
  lemma {:induction false} SignedHexExample()
    ensures JsStringToNumber("-0x1A").NaN?
  {
    assert JsTrim("-0x1A") == "-0x1A" by { assert Trimmed("-0x1A", JsSpaces); }
    SignedRadixIsNaN("-0x1A");
  }

  /** The longest run of digits of decimal digits followed by anything
      else is that run. */
  lemma {:induction false} LeadingDigitsOfDigits(d: string, rest: string)
    requires AllDigits(d) && (rest == [] || !IsDigit(rest[0]))
    ensures LeadingDigits(d + rest) == d
    decreases |d|
  {
    if d == [] {
      assert d + rest == rest;
    } else {
      assert (d + rest)[1..] == d[1..] + rest;
      LeadingDigitsOfDigits(d[1..], rest);
    }
  }

  /** `parseInt` reads an integer's decimal text back as that integer,
      whatever follows it, so long as that is not another digit or an "x"
      right after a lone "0". */
  lemma {:induction false} JsParseIntOfIntegerText(i: int, rest: string)
    requires rest == [] || (!IsDigit(rest[0]) && rest[0] != 'x' && rest[0] != 'X')
    ensures JsParseInt(IntToDecimal(i) + rest) == Finite(i as real)
  {
    var n: nat := if i < 0 then -i else i;
    var d := NatToDecimal(n);
    var s := IntToDecimal(i) + rest;
    ParseIntPieces(i, rest);
    var t := TrimStart(s, JsSpaces);
    var body := Unsigned(t);
    assert LeadingDigits(body) == d;
    assert DecimalValue(d) == n;
    assert Negative(t) <==> i < 0;
  }

  lemma {:induction false} IntegerTextHead(i: int, rest: string)
    ensures var s := IntToDecimal(i) + rest; s[0] == '-' || IsDigit(s[0])
  {
    var n: nat := if i < 0 then -i else i;
    var d := NatToDecimal(n);
    assert IsDigit(d[0]);
  }

  lemma {:induction false} IntegerTextTrim(i: int, rest: string)
    ensures var s := IntToDecimal(i) + rest;
      TrimStart(s, JsSpaces) == s
  {
    var s := IntToDecimal(i) + rest;
    IntegerTextHead(i, rest);
    assert !IsSpace(JsSpaces, s[0]);
    TrimStartUnspaced(s, JsSpaces);
  }

  lemma {:induction false} IntegerTextStart(i: int, rest: string)
    ensures var s := IntToDecimal(i) + rest;
      && Unsigned(s) == NatToDecimal(if i < 0 then -i else i) + rest
      && (Negative(s) <==> i < 0)
  {
    var n: nat := if i < 0 then -i else i;
    var d := NatToDecimal(n);
    var s := IntToDecimal(i) + rest;
    IntegerTextHead(i, rest);
    if i < 0 {
      assert s == "-" + (d + rest);
    } else {
      assert s == d + rest && !IsSign(d[0]);
    }
  }

  lemma {:induction false} ParseIntPieces(i: int, rest: string)
    requires rest == [] || (!IsDigit(rest[0]) && rest[0] != 'x' && rest[0] != 'X')
    ensures var n: nat := if i < 0 then -i else i;
      var s := IntToDecimal(i) + rest;
      var t := TrimStart(s, JsSpaces);
      var body := Unsigned(t);
      && t == s && body == NatToDecimal(n) + rest
      && !(|body| >= 2 && body[0] == '0' && (body[1] == 'x' || body[1] == 'X'))
      && LeadingDigits(body) == NatToDecimal(n)
      && (Negative(t) <==> i < 0)
  {
    var n: nat := if i < 0 then -i else i;
    var d := NatToDecimal(n);
    IntegerTextTrim(i, rest);
    IntegerTextStart(i, rest);
    var body := d + rest;
    if |d| == 1 && |body| >= 2 {
      assert body[1] == rest[0];
    }
    LeadingDigitsOfDigits(d, rest);
  }

  /** `parseFloat` reads an integer's decimal text back as that integer,
      whatever follows it, so long as that does not continue the number
      (a digit, a point or an exponent mark). */
  lemma {:induction false} JsParseFloatOfIntegerText(i: int, rest: string)
    requires rest == [] || !(IsDigit(rest[0]) || rest[0] == '.' || IsExponentMark(rest[0]))
    ensures JsParseFloat(IntToDecimal(i) + rest) == Finite(i as real)
  {
    FloatPieces(i, rest);
    JsParseFloatOfWhole(IntToDecimal(i) + rest);
  }

  lemma {:induction false} FloatPieces(i: int, rest: string)
    requires rest == [] || !(IsDigit(rest[0]) || rest[0] == '.' || IsExponentMark(rest[0]))
    ensures var s := IntToDecimal(i) + rest;
      var t := TrimStart(s, JsSpaces);
      var body := Unsigned(t);
      var whole := LeadingDigits(body);
      var rest' := body[|whole|..];
      && body != [] && IsDigit(body[0]) && (rest' == [] || !(rest'[0] == '.' || IsExponentMark(rest'[0])))
      && (Negative(t) <==> i < 0)
      && DecimalValue(whole) == (if i < 0 then -i else i)
  {
    var n: nat := if i < 0 then -i else i;
    var d := NatToDecimal(n);
    var s := IntToDecimal(i) + rest;
    IntegerTextTrim(i, rest);
    IntegerTextStart(i, rest);
    var body := d + rest;
    assert Unsigned(s) == body;
    LeadingDigitsOfDigits(d, rest);
    assert body[|d|..] == rest;
  }

  /** `parseFloat` of text whose number part is a run of digits that no
      point or exponent continues. */
  lemma {:induction false} JsParseFloatOfWhole(s: string)
    requires var body := Unsigned(TrimStart(s, JsSpaces));
      var rest := body[|LeadingDigits(body)|..];
      body != [] && IsDigit(body[0]) && (rest == [] || !(rest[0] == '.' || IsExponentMark(rest[0])))
    ensures var t := TrimStart(s, JsSpaces);
      var v := DecimalValue(LeadingDigits(Unsigned(t))) as real;
      JsParseFloat(s) == Finite(if Negative(t) then -v else v)
  {
    WholeAfterSpace(TrimStart(s, JsSpaces));
  }

  lemma {:induction false} WholeAfterSpace(t: string)
    requires var body := Unsigned(t);
      var rest := body[|LeadingDigits(body)|..];
      body != [] && IsDigit(body[0]) && (rest == [] || !(rest[0] == '.' || IsExponentMark(rest[0])))
    ensures var v := DecimalValue(LeadingDigits(Unsigned(t))) as real;
      JsFloatAfterSpace(t) == Finite(if Negative(t) then -v else v)
  {
    var body := Unsigned(t);
    assert body[0] != "Infinity"[0];
    assert Unshift(DecimalValue("") as real, 0) == 0.0;
  }

  /** `parseFloat` reads a point and a run of digits after an integer's
      text as the fraction they write. */
  lemma {:induction false} JsParseFloatOfDecimalText(w: nat, f: string)
    requires |f| >= 1 && AllDigits(f)
    ensures JsParseFloat(NatToDecimal(w) + "." + f)
              == Finite(w as real + Unshift(DecimalValue(f) as real, |f|))
  {
    var d := NatToDecimal(w);
    DecimalTextStart(d, f);
    DecimalTextDigits(d, f);
    JsParseFloatOfPoint(d + "." + f, d, f);
  }

  lemma {:induction false} DecimalTextStart(d: string, f: string)
    requires |d| >= 1 && AllDigits(d)
    ensures var s := d + "." + f; TrimStart(s, JsSpaces) == s
  {
    var s := d + "." + f;
    assert s[0] == d[0];
    DigitFirst(s);
  }

  /** Text that starts with a digit has no leading white space or sign. */
  lemma {:induction false} DigitFirst(s: string)
    requires s != [] && IsDigit(s[0])
    ensures TrimStart(s, JsSpaces) == s && Unsigned(s) == s
  {
    TrimStartUnspaced(s, JsSpaces);
  }

  lemma {:induction false} DecimalTextDigits(d: string, f: string)
    requires AllDigits(d) && AllDigits(f)
    ensures var s := d + "." + f;
      var rest := s[|LeadingDigits(s)|..];
      && LeadingDigits(s) == d && rest != [] && rest[0] == '.'
      && LeadingDigits(rest[1..]) == f && rest[1 + |f|..] == []
  {
    var s := d + "." + f;
    assert s == d + ("." + f);
    LeadingDigitsOfDigits(d, "." + f);
    assert s[|d|..] == "." + f;
    assert ("." + f)[1..] == f + "";
    LeadingDigitsOfDigits(f, "");
  }

  /** `parseFloat` of text that is, after leading white space, digits, a
      point and digits. */
  lemma {:induction false} JsParseFloatOfPoint(s: string, whole: string, frac: string)
    requires var body := Unsigned(TrimStart(s, JsSpaces));
      && !Negative(TrimStart(s, JsSpaces)) && body != [] && IsDigit(body[0])
      && LeadingDigits(body) == whole && |whole| < |body|
    requires var rest := Unsigned(TrimStart(s, JsSpaces))[|whole|..];
      rest[0] == '.' && LeadingDigits(rest[1..]) == frac && rest[1 + |frac|..] == []
    ensures JsParseFloat(s)
              == Finite(DecimalValue(whole) as real + Unshift(DecimalValue(frac) as real, |frac|))
  {
    PointAfterSpace(TrimStart(s, JsSpaces), whole, frac);
  }

  lemma {:induction false} PointAfterSpace(t: string, whole: string, frac: string)
    requires var body := Unsigned(t);
      && !Negative(t) && body != [] && IsDigit(body[0])
      && LeadingDigits(body) == whole && |whole| < |body|
    requires var rest := Unsigned(t)[|whole|..];
      rest[0] == '.' && LeadingDigits(rest[1..]) == frac && rest[1 + |frac|..] == []
    ensures JsFloatAfterSpace(t)
              == Finite(DecimalValue(whole) as real + Unshift(DecimalValue(frac) as real, |frac|))
  {
    var body := Unsigned(t);
    assert !(|body| >= 8 && body[..8] == "Infinity") by {
      assert body[0] != "Infinity"[0];
    }
    DecimalPrefixOfPoint(body, whole, frac);
  }

  lemma {:induction false} DecimalPrefixOfPoint(body: string, whole: string, frac: string)
    requires LeadingDigits(body) == whole && |whole| >= 1 && |whole| < |body|
    requires var rest := body[|whole|..];
      rest[0] == '.' && LeadingDigits(rest[1..]) == frac && rest[1 + |frac|..] == []
    ensures DecimalPrefix(body)
              == Some(DecimalValue(whole) as real + Unshift(DecimalValue(frac) as real, |frac|))
  {
    assert ExponentPrefix([]).None?;
  }

  /** The exponent `toString` writes is 21 or more, or -7 or less. */
  lemma {:induction false} ExponentRange(v: real)
    requires UsesExponent(v)
    ensures var e := DecimalExponent(Abs(v)); e >= 21 || e <= -7
  {
    var a := Abs(v);
    var e := DecimalExponent(a);
    if a >= 1.0 && e <= 20 {
      var m := Scale(a, -e);
      UnshiftThenShift(a, e);
      ShiftLess(m, 10.0, e);
      ShiftGrows(10.0, e, 20);
      TwentyOnePlaces();
    } else if a < 1.0 && e >= -6 {
      ShiftGrows(a, -e, 6);
      ShiftLess(a, 0.000001, 6);
    }
  }

  /** Ten to the 21st, the first value `toString` writes with an exponent. */
  lemma {:induction false} TwentyOnePlaces()
    ensures Shift(1.0, 21) == 1_000_000_000_000_000_000_000.0
    ensures Shift(10.0, 20) == 1_000_000_000_000_000_000_000.0
  {
    assert Shift(1.0, 7) == 10_000_000.0;
    assert Shift(10_000_000.0, 7) == 100_000_000_000_000.0;
    assert Shift(100_000_000_000_000.0, 7) == 1_000_000_000_000_000_000_000.0;
    ShiftAdd(1.0, 7, 7);
    ShiftAdd(1.0, 14, 7);
  }

  /** One value that shows each notation. */
  lemma {:induction false} ToStringExamples()
    ensures NumberToString(Finite(1.5)) == "1.5"
    ensures NumberToString(Finite(1_000_000_000_000_000_000_000.0)) == "1e+21"
    ensures NumberToString(Finite(0.000_000_1)) == "1e-7"
  {
    PlainExample();
    LargeExample();
    SmallExample();
  }

  lemma {:induction false} PlainExample()
    ensures NumberToString(Finite(1.5)) == "1.5"
  {
    assert FractionDigits(0.5, 20) == "5" by {
      assert FractionDigits(0.0, 19) == "";
    }
    assert NatToDecimal(1) == "1";
  }

  lemma {:induction false} LargeExample()
    ensures NumberToString(Finite(1_000_000_000_000_000_000_000.0)) == "1e+21"
  {
    var a := 1_000_000_000_000_000_000_000.0;
    TwentyOnePlaces();
    ShiftThenUnshift(1.0, 21);
    DecadeUnique(a, DecimalExponent(a), 21);
    assert NatToDecimal(21) == "21" by {
      assert NatToDecimal(2) == "2";
    }
    SingleDigitExponentText(a, 21);
  }

  lemma {:induction false} SmallExample()
    ensures NumberToString(Finite(0.000_000_1)) == "1e-7"
  {
    var a := 0.000_000_1;
    assert DecimalExponent(a) == -7;
    assert Scale(a, 7) == 1.0;
    assert NatToDecimal(7) == "7";
    SingleDigitExponentText(a, -7);
  }

  /** A positive value written in exponent notation whose significand is
      exactly one is "1" followed by its exponent part. */
  lemma {:induction false} SingleDigitExponentText(a: real, e: int)
    requires UsesExponent(a) && a > 0.0 && DecimalExponent(a) == e && Scale(a, -e) == 1.0
    ensures NumberToString(Finite(a)) == "1" + ExponentSuffix(e)
  {
    SingleDigitSignificand(a, e);
  }

  lemma {:induction false} SingleDigitSignificand(a: real, e: int)
    requires UsesExponent(a) && a > 0.0 && DecimalExponent(a) == e && Scale(a, -e) == 1.0
    ensures ExponentText(a) == "1" + ExponentSuffix(e)
  {
    SignificandOfOne();
  }

  lemma {:induction false} SignificandOfOne()
    ensures SignificandText(1.0) == "1"
  {
    var lead := [DigitChar(1)] + FractionDigits(0.0, 20);
    assert lead == "1";
  }

  /** `float(str(i))` is `i` as a float. */
  lemma {:induction false} PyFloatOfIntegerText(i: int)
    ensures PyParseFloat(IntToDecimal(i)) == Some(Finite(i as real))
  {
    var t := IntToDecimal(i);
    var d := NatToDecimal(if i < 0 then -i else i);
    IntegerTextStripped(i);
    IntegerTextSign(i);
    DigitsAreNoWord(d);
    PyDecimalOfDigits(d);
    PyFloatOfDecimalPieces(t, t, d, DecimalValue(d) as real);
  }

  /** `float` of a text whose stripped, unsigned part is a decimal literal
      is that literal's value under the text's sign. */
  lemma {:induction false} PyFloatOfDecimalPieces(s: string, t: string, body: string, v: real)
    requires PyStrip(s) == t && Unsigned(t) == body
    requires !IsInfinityWord(body) && !IsNanWord(body) && PyDecimal(body) == Some(v)
    ensures PyParseFloat(s) == Some(Finite(if Negative(t) then -v else v))
  {
    StrippedDecimal(t, body, v);
  }

  lemma {:induction false} StrippedDecimal(t: string, body: string, v: real)
    requires Unsigned(t) == body
    requires !IsInfinityWord(body) && !IsNanWord(body) && PyDecimal(body) == Some(v)
    ensures PyFloatOfStripped(t) == Some(Finite(if Negative(t) then -v else v))
  {
  }

  lemma {:induction false} DigitsAreNoWord(body: string)
    requires body != [] && IsDigit(body[0])
    ensures !IsInfinityWord(body) && !IsNanWord(body)
  {
    var word := LowerAscii(body);
    assert word[0] == body[0];
    assert word[0] != "inf"[0] && word[0] != "nan"[0];
  }

  lemma {:induction false} PyDecimalOfDigits(body: string)
    requires |body| >= 1 && AllDigits(body)
    ensures PyDecimal(body) == Some(DecimalValue(body) as real)
  {
    assert '_' !in body;
    UnsignedDecimalOfDigits(body);
  }

  /** `float` reads "inf" and "infinity" in any case, signed or not, and
      "nan". */
  lemma {:induction false} PyFloatOfWords()
    ensures PyParseFloat("inf") == Some(PosInfinity)
    ensures PyParseFloat(" -Infinity ") == Some(NegInfinity)
    ensures PyParseFloat("+INF") == Some(PosInfinity)
    ensures PyParseFloat("nan") == Some(NaN)
  {
    InfWord();
    NegInfinityWord();
    SignedInfWord();
    NanWord();
  }

  lemma {:induction false} PyFloatOfInfinityWord(s: string)
    requires IsInfinityWord(Unsigned(PyStrip(s)))
    ensures PyParseFloat(s) == Some(if Negative(PyStrip(s)) then NegInfinity else PosInfinity)
  {
  }

  lemma {:induction false} InfWord()
    ensures PyParseFloat("inf") == Some(PosInfinity)
  {
    assert PyStrip("inf") == "inf" by { assert Trimmed("inf", PySpaces); }
    assert LowerAscii("inf") == "inf";
    PyFloatOfInfinityWord("inf");
  }

  lemma {:induction false} NegInfinityWord()
    ensures PyParseFloat(" -Infinity ") == Some(NegInfinity)
  {
    PaddedInfinity();
    LowerInfinity();
    PyFloatOfInfinityWord(" -Infinity ");
  }

  lemma {:induction false} PaddedInfinity()
    ensures PyStrip(" -Infinity ") == "-Infinity"
  {
    PaddedInfinityText();
    TrimPadded(" ", "-Infinity", PySpaces);
  }

  lemma {:induction false} PaddedInfinityText()
    ensures " " + "-Infinity" + " " == " -Infinity "
  {
  }

  lemma {:induction false} LowerInfinity()
    ensures Unsigned("-Infinity") == "Infinity" && LowerAscii("Infinity") == "infinity"
  {
  }

  lemma {:induction false} SignedInfWord()
    ensures PyParseFloat("+INF") == Some(PosInfinity)
  {
    assert PyStrip("+INF") == "+INF" by { assert Trimmed("+INF", PySpaces); }
    assert Unsigned("+INF") == "INF";
    assert LowerAscii("INF") == "inf";
    PyFloatOfInfinityWord("+INF");
  }

  lemma {:induction false} NanWord()
    ensures PyParseFloat("nan") == Some(NaN)
  {
    assert PyStrip("nan") == "nan" by { assert Trimmed("nan", PySpaces); }
    assert LowerAscii("nan") == "nan";
    PyFloatOfNanWord("nan");
  }

  lemma {:induction false} PyFloatOfNanWord(s: string)
    requires IsNanWord(Unsigned(PyStrip(s)))
    ensures PyParseFloat(s) == Some(NaN)
  {
    var word := LowerAscii(Unsigned(PyStrip(s)));
    assert word[0] != "inf"[0];
  }

  /** `float` drops underscores that stand between digits: "1_000.5" reads
      as 1000.5. */
  lemma {:induction false} PyFloatOfUnderscoredText()
    ensures PyParseFloat("1_000.5") == Some(Finite(1000.5))
  {
    var s := "1_000.5";
    assert Trimmed(s, PySpaces) && IsDigit(s[0]);
    UnderscoredValue();
    PyFloatOfTrimmedDecimal(s, 1000.5);
  }

  /** `float` of a decimal literal with no white space around it and no
      sign is its value. */
  lemma {:induction false} PyFloatOfTrimmedDecimal(s: string, v: real)
    requires Trimmed(s, PySpaces) && s != [] && IsDigit(s[0])
    requires PyDecimal(s) == Some(v)
    ensures PyParseFloat(s) == Some(Finite(v))
  {
    TrimmedDigitText(s);
    DigitsAreNoWord(s);
    PyFloatOfDecimalPieces(s, s, s, v);
  }

  lemma {:induction false} TrimmedDigitText(s: string)
    requires Trimmed(s, PySpaces) && s != [] && IsDigit(s[0])
    ensures PyStrip(s) == s && Unsigned(s) == s && !Negative(s)
  {
  }

  lemma {:induction false} UnderscoredValue()
    ensures PyDecimal("1_000.5") == Some(1000.5)
  {
    UnderscoresExample();
    WithoutUnderscoresExample();
    PointValue();
    PyDecimalOfPieces("1_000.5", "1000.5", 1000.5);
  }

  lemma {:induction false} UnderscoresExample()
    ensures UnderscoresBetweenDigits("1_000.5")
  {
    var s := "1_000.5";
    assert FlankedIfUnderscore(s, 1);
  }

  lemma {:induction false} WithoutUnderscoresExample()
    ensures WithoutUnderscores("1_000.5") == "1000.5"
  {
    var s := "1_000.5";
    assert s[1..] == "_000.5";
    WithoutLeadingUnderscore();
    LeadingOne();
  }

  lemma {:induction false} LeadingOne()
    ensures ['1'] + "000.5" == "1000.5"
  {
  }

  lemma {:induction false} WithoutLeadingUnderscore()
    ensures WithoutUnderscores("_000.5") == "000.5"
  {
    var s := "_000.5";
    assert s[1..] == "000.5";
    assert '_' !in "000.5";
  }

  /** The value `float` gives a literal with underscores is that of the
      literal without them. */
  lemma {:induction false} PyDecimalOfPieces(u: string, w: string, v: real)
    requires UnderscoresBetweenDigits(u) && WithoutUnderscores(u) == w
    requires UnsignedDecimal(w) == Some(v)
    ensures PyDecimal(u) == Some(v)
  {
  }

  lemma {:induction false} PointValue()
    ensures UnsignedDecimal("1000.5") == Some(1000.5)
  {
    var u := "1000.5";
    assert FindFirst(u, IsExponentMark) == |u|;
    assert u[..|u|] == u;
    assert FindFirst(u, IsDot) == 4;
    assert u[..4] == "1000" && u[5..] == "5";
    assert DecimalValue("1000") == 1000 by {
      assert "1000"[..3] == "100" && "100"[..2] == "10" && "10"[..1] == "1" && "1"[..0] == "";
    }
    assert DecimalValue("5") == 5 by { assert "5"[..0] == ""; }
  }
}
