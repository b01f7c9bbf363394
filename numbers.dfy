/** How the two languages read numbers out of text and print them: JavaScript's
    `Number(string)`, `parseInt`, `parseFloat` and `Number.prototype.toString`,
    and Python's `int(str)` and `float(str)`. */
module Numbers {
  import opened Wrappers
  import opened Strings

  /** A number of either language (both use IEEE doubles for floats). Finite
      values are kept as exact rationals; rounding to 53 bits is not modelled. */
  datatype Double = Finite(value: real) | NaN | PosInfinity | NegInfinity

  predicate IsIntegral(d: Double) {
    d.Finite? && d.value == d.value.Floor as real
  }

  lemma FloorOfInteger(k: int)
    ensures (k as real).Floor == k
  {
  }

  function Pow10(k: nat): (p: nat)
    ensures p >= 1
  {
    if k == 0 then 1 else 10 * Pow10(k - 1)
  }

  /** `a` multiplied by ten, `k` times over. */
  function Shift(a: real, k: nat): real
    decreases k
  {
    if k == 0 then a else Shift(a * 10.0, k - 1)
  }

  /** `a` divided by ten, `k` times over. */
  function Unshift(a: real, k: nat): real
    decreases k
  {
    if k == 0 then a else Unshift(a / 10.0, k - 1)
  }

  /** `v * 10^e` for an integer exponent of either sign. */
  function Scale(v: real, e: int): real {
    if e >= 0 then Shift(v, e) else Unshift(v, -e)
  }

  /** The index of the first character satisfying `p`, or `|s|` if none does. */
  function FindFirst(s: string, p: char -> bool): (k: nat)
    ensures k <= |s|
    ensures k < |s| ==> p(s[k])
    ensures forall i :: 0 <= i < k ==> !p(s[i])
  {
    FindFrom(s, p, 0)
  }

  /** The first index at or after `i` whose character satisfies `p`, or `|s|`. */
  function FindFrom(s: string, p: char -> bool, i: nat): (k: nat)
    requires i <= |s|
    ensures i <= k <= |s|
    ensures k < |s| ==> p(s[k])
    ensures forall j :: i <= j < k ==> !p(s[j])
    decreases |s| - i
  {
    if i < |s| && !p(s[i]) then FindFrom(s, p, i + 1) else i
  }

  /** The longest prefix of `s` made of decimal digits. */
  function LeadingDigits(s: string): (d: string)
    ensures AllDigits(d) && |d| <= |s| && d == s[..|d|]
    ensures |d| < |s| ==> !IsDigit(s[|d|])
  {
    if s != [] && IsDigit(s[0]) then [s[0]] + LeadingDigits(s[1..]) else ""
  }

  predicate IsSign(c: char) { c == '+' || c == '-' }
  predicate IsDot(c: char) { c == '.' }
  predicate IsExponentMark(c: char) { c == 'e' || c == 'E' }

  /** Text without its leading sign character, if it has one. */
  function Unsigned(t: string): string {
    if t != [] && IsSign(t[0]) then t[1..] else t
  }

  predicate Negative(t: string) { t != [] && t[0] == '-' }

  // ---------------------------------------------------------------------
  // The decimal literal grammar both languages share:
  //   sign? (digits ('.' digits?)? | '.' digits) (('e' | 'E') sign? digits)?

  /** `digits ['.' digits]` with at least one digit in all. */
  function Mantissa(m: string): Option<real>
  {
    var j := FindFirst(m, IsDot);
    var whole := m[..j];
    var frac := if j < |m| then m[j + 1..] else "";
    if AllDigits(whole) && AllDigits(frac) && |whole| + |frac| >= 1 then
      Some(DecimalValue(whole) as real + Unshift(DecimalValue(frac) as real, |frac|))
    else None
  }

  /** An optionally signed, non-empty run of digits (an exponent). */
  function SignedDigits(e: string): Option<int>
  {
    var d := Unsigned(e);
    if |d| >= 1 && AllDigits(d) then
      Some(if Negative(e) then -(DecimalValue(d) as int) else DecimalValue(d))
    else None
  }

  function UnsignedDecimal(u: string): Option<real>
  {
    var k := FindFirst(u, IsExponentMark);
    var m := Mantissa(u[..k]);
    if m.None? then None
    else if k == |u| then m
    else match SignedDigits(u[k + 1..])
      case None => None
      case Some(e) => Some(Scale(m.value, e))
  }

  function SignedDecimal(t: string): Option<real>
  {
    match UnsignedDecimal(Unsigned(t))
    case None => None
    case Some(v) => Some(if Negative(t) then -v else v)
  }

  /** A run of digits with no dot and no exponent reads as its value. */
  lemma {:induction false} UnsignedDecimalOfDigits(d: string)
    requires |d| >= 1 && AllDigits(d)
    ensures UnsignedDecimal(d) == Some(DecimalValue(d) as real)
  {
    var k := FindFirst(d, IsExponentMark);
    assert d[..k] == d;
    var j := FindFirst(d, IsDot);
    assert d[..j] == d;
    assert DecimalValue("") == 0;
    assert Pow10(0) == 1;
  }

  /** The decimal text of an integer reads back as that integer. */
  lemma SignedDecimalOfInteger(i: int)
    ensures SignedDecimal(IntToDecimal(i)) == Some(i as real)
  {
    var n: nat := if i < 0 then -i else i;
    var d := NatToDecimal(n);
    assert Unsigned(IntToDecimal(i)) == d;
    UnsignedDecimalOfDigits(d);
  }

  // ---------------------------------------------------------------------
  // JavaScript

  predicate IsHexDigit(c: char) { IsDigit(c) || ('a' <= c <= 'f') || ('A' <= c <= 'F') }

  function HexDigitValue(c: char): (v: nat)
    requires IsHexDigit(c)
    ensures v < 16
    ensures IsDigit(c) ==> v == DigitValue(c)
  {
    if IsDigit(c) then DigitValue(c)
    else if 'a' <= c <= 'f' then (c as int) - ('a' as int) + 10
    else (c as int) - ('A' as int) + 10
  }

  /** A digit of base `radix` (2, 8, 10 or 16), letters in either case. */
  predicate IsRadixDigit(c: char, radix: nat) { IsHexDigit(c) && HexDigitValue(c) < radix }

  predicate AllRadixDigits(s: string, radix: nat) {
    forall i :: 0 <= i < |s| ==> IsRadixDigit(s[i], radix)
  }

  /** The bases a numeric literal can be written in. */
  predicate IsRadix(radix: nat) { radix == 2 || radix == 8 || radix == 10 || radix == 16 }

  /** `v * radix`, spelled out for each base. */
  function TimesRadix(v: nat, radix: nat): nat
    requires IsRadix(radix)
  {
    if radix == 2 then 2 * v else if radix == 8 then 8 * v else if radix == 10 then 10 * v else 16 * v
  }

  /** The value of a string of base-`radix` digits, most significant first. */
  function RadixValue(s: string, radix: nat): (n: nat)
    requires IsRadix(radix) && AllRadixDigits(s, radix)
    ensures radix == 10 ==> AllDigits(s) && n == DecimalValue(s)
  {
    if s == [] then 0
    else
      var n := TimesRadix(RadixValue(s[..|s| - 1], radix), radix) + HexDigitValue(s[|s| - 1]);
      assert radix == 10 ==> IsDigit(s[|s| - 1]);
      n
  }

  /** The base the letter after a leading "0" selects in a non-decimal
      literal ("0x", "0o", "0b", either case), or 0 for any other letter. */
  function RadixMark(c: char): (radix: nat)
    ensures radix == 0 || (IsRadix(radix) && radix != 10)
  {
    if c == 'x' || c == 'X' then 16
    else if c == 'o' || c == 'O' then 8
    else if c == 'b' || c == 'B' then 2
    else 0
  }

  /** A non-decimal integer literal as `Number` reads it: "0x", "0o" or
      "0b" and at least one digit of that base, with no sign in front. */
  function RadixLiteral(t: string): (r: Option<nat>)
    ensures r.Some? ==> |t| >= 3 && t[0] == '0' && RadixMark(t[1]) != 0
  {
    if |t| >= 3 && t[0] == '0' && RadixMark(t[1]) != 0 && AllRadixDigits(t[2..], RadixMark(t[1])) then
      Some(RadixValue(t[2..], RadixMark(t[1])))
    else None
  }

  /** `Number(s)` for a string `s`: surrounding white space is ignored, blank
      text is 0, an unsigned "0x"/"0o"/"0b" literal is its value in that
      base, a decimal literal or (signed) "Infinity" is its value, and
      anything else (a sign before a "0x" literal included) is NaN. */
  function JsStringToNumber(s: string): (d: Double)
    ensures JsTrim(s) == "" ==> d == Finite(0.0)
    ensures d.PosInfinity? <==> JsTrim(s) == "Infinity" || JsTrim(s) == "+Infinity"
    ensures d.NegInfinity? <==> JsTrim(s) == "-Infinity"
  {
    JsNumberOfTrimmed(JsTrim(s))
  }

  /** `JsStringToNumber` once the surrounding white space is gone. */
  function JsNumberOfTrimmed(t: string): (d: Double)
    ensures t == "" ==> d == Finite(0.0)
    ensures d.PosInfinity? <==> t == "Infinity" || t == "+Infinity"
    ensures d.NegInfinity? <==> t == "-Infinity"
  {
    if t == "" then Finite(0.0)
    else if t == "Infinity" || t == "+Infinity" then PosInfinity
    else if t == "-Infinity" then NegInfinity
    else match RadixLiteral(t)
      case Some(n) => Finite(n as real)
      case None =>
        match SignedDecimal(t)
        case Some(v) => Finite(v)
        case None => NaN
  }

  function LeadingHexDigits(s: string): (d: string)
    ensures |d| <= |s| && d == s[..|d|]
    ensures AllRadixDigits(d, 16)
  {
    if s != [] && IsHexDigit(s[0]) then [s[0]] + LeadingHexDigits(s[1..]) else ""
  }

  /** `parseInt(s)` with no radix: leading white space and a sign are skipped,
      "0x"/"0X" switches to hexadecimal, and the longest run of digits that
      follows is read; no digit at all gives NaN. The result is NaN or an
      integer. */
  function JsParseInt(s: string): (d: Double)
    ensures d.NaN? || IsIntegral(d)
  {
    var t := TrimStart(s, JsSpaces);
    var body := Unsigned(t);
    var hex := |body| >= 2 && body[0] == '0' && (body[1] == 'x' || body[1] == 'X');
    var digits := if hex then LeadingHexDigits(body[2..]) else LeadingDigits(body);
    if digits == "" then NaN
    else
      var n := if hex then RadixValue(digits, 16) else DecimalValue(digits);
      var k: int := if Negative(t) then -(n as int) else n;
      FloorOfInteger(k);
      Finite(k as real)
  }

  /** An exponent (`e` or `E`, optional sign, at least one digit) at the start
      of `s`, as `parseFloat` accepts it. */
  function ExponentPrefix(s: string): Option<int>
  {
    if s != [] && IsExponentMark(s[0]) then
      var r := s[1..];
      var d := LeadingDigits(Unsigned(r));
      if d == "" then None else Some(if Negative(r) then -(DecimalValue(d) as int) else DecimalValue(d))
    else None
  }

  /** The value of the longest decimal literal (without sign) at the start
      of `body`: digits, optionally a point and more digits, at least one
      digit in all, optionally an exponent. */
  function DecimalPrefix(body: string): (v: Option<real>)
    ensures v.None? <==>
      |LeadingDigits(body)| == 0 && !(|body| >= 2 && body[0] == '.' && IsDigit(body[1]))
  {
    var whole := LeadingDigits(body);
    var rest := body[|whole|..];
    var dotted := rest != [] && rest[0] == '.';
    var frac := if dotted then LeadingDigits(rest[1..]) else "";
    if |whole| + |frac| == 0 then None
    else
      var after := if dotted then rest[1 + |frac|..] else rest;
      var m := DecimalValue(whole) as real + Unshift(DecimalValue(frac) as real, |frac|);
      Some(match ExponentPrefix(after) case Some(e) => Scale(m, e) case None => m)
  }

  /** `parseFloat(s)`: leading white space is skipped and the longest prefix
      that is a decimal literal (or a signed "Infinity") is read; no such
      prefix gives NaN. */
  function JsParseFloat(s: string): (d: Double)
    ensures d.NaN? <==> (
      var body := Unsigned(TrimStart(s, JsSpaces));
      !(|body| >= 8 && body[..8] == "Infinity") &&
      |LeadingDigits(body)| == 0 &&
      !(|body| >= 2 && body[0] == '.' && IsDigit(body[1])))
  {
    JsFloatAfterSpace(TrimStart(s, JsSpaces))
  }

  /** `JsParseFloat` once the leading white space is gone. */
  function JsFloatAfterSpace(t: string): (d: Double)
    ensures d.NaN? <==> (
      var body := Unsigned(t);
      !(|body| >= 8 && body[..8] == "Infinity") &&
      |LeadingDigits(body)| == 0 &&
      !(|body| >= 2 && body[0] == '.' && IsDigit(body[1])))
  {
    var body := Unsigned(t);
    if |body| >= 8 && body[..8] == "Infinity" then
      (if Negative(t) then NegInfinity else PosInfinity)
    else match DecimalPrefix(body)
      case None => NaN
      case Some(v) => Finite(if Negative(t) then -v else v)
  }

  // ---------------------------------------------------------------------
  // Number::toString

  function Abs(v: real): (a: real)
    ensures a >= 0.0 && (a == v || a == -v)
  {
    if v < 0.0 then -v else v
  }

  /** Whether `toString` writes a finite value in exponent notation: from
      10^21 up in magnitude, and below 10^-6 (zero excepted). */
  predicate UsesExponent(v: real) {
    var a := Abs(v);
    a >= 1_000_000_000_000_000_000_000.0 || (0.0 < a && a < 0.000001)
  }

  /** `toString` writes these as the decimal text of an integer. */
  predicate PrintsAsInteger(d: Double) {
    IsIntegral(d) && !UsesExponent(d.value)
  }

  /** An integer below 10^21 in magnitude prints as its decimal text. */
  lemma {:induction false} IntegerToString(k: int)
    requires !UsesExponent(k as real)
    ensures NumberToString(Finite(k as real)) == IntToDecimal(k)
  {
    FloorOfInteger(k);
  }

  /** The text of `n` has as many digits as its order of magnitude says. */
  lemma {:induction false} DigitCountMagnitude(n: nat)
    requires n >= 1
    ensures Pow10(|NatToDecimal(n)| - 1) <= n < Pow10(|NatToDecimal(n)|)
    decreases n
  {
    if n >= 10 {
      DigitCountMagnitude(n / 10);
      var L := |NatToDecimal(n / 10)|;
      assert |NatToDecimal(n)| == L + 1;
      assert Pow10(L) == 10 * Pow10(L - 1);
      assert Pow10(L + 1) == 10 * Pow10(L);
    }
  }

  /** Ten to the `k` is more than `k`. */
  lemma {:induction false} Pow10Exceeds(k: nat)
    ensures Pow10(k) > k
  {
    if k > 0 {
      Pow10Exceeds(k - 1);
    }
  }

  lemma Regroup(a: real, p: real, r: real)
    requires r == 10.0 * p
    ensures a * r == (a * 10.0) * p
  {
  }

  /** Multiplying by ten `k` times over is multiplying by ten to the `k`. */
  lemma {:induction false} ShiftIsProduct(a: real, k: nat)
    ensures Shift(a, k) == a * Pow10(k) as real
    decreases k
  {
    if k > 0 {
      ShiftIsProduct(a * 10.0, k - 1);
      Regroup(a, Pow10(k - 1) as real, Pow10(k) as real);
    }
  }

  /** A count of tens that brings a positive value to 1 or more. */
  function TensToOne(a: real): (bound: nat)
    requires 0.0 < a
    ensures Shift(a, bound) >= 1.0
  {
    var x := 1.0 / a;
    assert a * x == 1.0;
    var bound: nat := x.Floor + 1;
    assert bound as real > x;
    assert a * bound as real >= a * x;
    Pow10Exceeds(bound);
    assert Pow10(bound) as real >= bound as real;
    assert a * Pow10(bound) as real >= a * bound as real;
    ShiftIsProduct(a, bound);
    bound
  }

  /** How many tens bring a value in (0, 10) into [1, 10); `bound` is any
      count of tens that brings it to 1 or more. */
  function TensToDecade(a: real, bound: nat): (k: nat)
    requires 0.0 < a < 10.0 && Shift(a, bound) >= 1.0
    ensures 1.0 <= Shift(a, k) < 10.0
    ensures k == 0 <==> a >= 1.0
    decreases bound
  {
    if a >= 1.0 then 0
    else TensToDecade(a * 10.0, bound - 1) + 1
  }

  /** How many tenths bring a value of 1 or more into [1, 10). */
  function TenthsToDecade(a: real): (k: nat)
    requires a >= 1.0
    ensures 1.0 <= Unshift(a, k) < 10.0
    ensures k == 0 <==> a < 10.0
    decreases a.Floor
  {
    if a < 10.0 then 0
    else TenthsToDecade(a / 10.0) + 1
  }

  /** The decimal exponent of a positive value: scaled by ten to its
      negation, the value lies in [1, 10). */
  function DecimalExponent(a: real): (e: int)
    requires a > 0.0
    ensures e >= 0 <==> a >= 1.0
    ensures 1.0 <= Scale(a, -e) < 10.0
  {
    if a >= 1.0 then TenthsToDecade(a)
    else -(TensToDecade(a, TensToOne(a)) as int)
  }

  /** Shifting commutes with multiplying by ten. */
  lemma {:induction false} ShiftScales(x: real, k: nat)
    ensures Shift(x * 10.0, k) == Shift(x, k) * 10.0
    decreases k
  {
    if k > 0 {
      ShiftScales(x * 10.0, k - 1);
    }
  }

  /** Shifting by `i` and then by `j` places is shifting by `i + j`. */
  lemma {:induction false} ShiftAdd(x: real, i: nat, j: nat)
    ensures Shift(Shift(x, i), j) == Shift(x, i + j)
    decreases i
  {
    if i > 0 {
      ShiftAdd(x * 10.0, i - 1, j);
    }
  }

  /** Tenths taken `k` times and then tens `k` times give the value back. */
  lemma {:induction false} UnshiftThenShift(a: real, k: nat)
    ensures Shift(Unshift(a, k), k) == a
    decreases k
  {
    if k > 0 {
      UnshiftThenShift(a / 10.0, k - 1);
      ShiftScales(Unshift(a, k), k - 1);
    }
  }

  /** Tens taken `k` times and then tenths `k` times give the value back. */
  lemma {:induction false} ShiftThenUnshift(x: real, k: nat)
    ensures Unshift(Shift(x, k), k) == x
    decreases k
  {
    if k > 0 {
      ShiftScales(x, k - 1);
      ShiftThenUnshift(x, k - 1);
    }
  }

  /** Shifting keeps order. */
  lemma {:induction false} ShiftLess(x: real, y: real, k: nat)
    requires x < y
    ensures Shift(x, k) < Shift(y, k)
    decreases k
  {
    if k > 0 {
      ShiftLess(x * 10.0, y * 10.0, k - 1);
    }
  }

  /** A positive value only grows when shifted. */
  lemma {:induction false} ShiftAtLeast(x: real, k: nat)
    requires x > 0.0
    ensures Shift(x, k) >= x
    decreases k
  {
    if k > 0 {
      ShiftAtLeast(x * 10.0, k - 1);
    }
  }

  /** A positive value shifted more is larger. */
  lemma {:induction false} ShiftGrows(x: real, i: nat, j: nat)
    requires x > 0.0 && i <= j
    ensures Shift(x, i) <= Shift(x, j)
    decreases i
  {
    if i == 0 {
      ShiftAtLeast(x, j);
    } else {
      ShiftGrows(x * 10.0, i - 1, j - 1);
    }
  }

  /** A value that is not negative only shrinks when unshifted. */
  lemma {:induction false} UnshiftAtMost(x: real, k: nat)
    requires x >= 0.0
    ensures 0.0 <= Unshift(x, k) <= x
    decreases k
  {
    if k > 0 {
      UnshiftAtMost(x / 10.0, k - 1);
    }
  }

  /** At most one count of tenths brings a value into [1, 10). */
  lemma {:induction false} DecadeUnique(a: real, i: nat, j: nat)
    requires 1.0 <= Unshift(a, i) < 10.0 && 1.0 <= Unshift(a, j) < 10.0
    ensures i == j
    decreases i + j
  {
    if i > 0 && j > 0 {
      DecadeUnique(a / 10.0, i - 1, j - 1);
    } else if i > 0 {
      UnshiftAtMost(a / 10.0, i - 1);
    } else if j > 0 {
      UnshiftAtMost(a / 10.0, j - 1);
    }
  }

  lemma {:induction false} Pow10Monotonic(i: nat, j: nat)
    requires i <= j
    ensures Pow10(i) <= Pow10(j)
    decreases j - i
  {
    if i < j {
      Pow10Monotonic(i + 1, j);
    }
  }

  /** Up to `fuel` decimal digits of a fraction in [0, 1), stopping early when
      the fraction is exhausted. */
  function FractionDigits(f: real, fuel: nat): (s: string)
    requires 0.0 <= f < 1.0
    ensures AllDigits(s)
    ensures f > 0.0 && fuel > 0 ==> |s| >= 1
    decreases fuel
  {
    if f == 0.0 || fuel == 0 then ""
    else
      var d := (f * 10.0).Floor;
      [DigitChar(d)] + FractionDigits(f * 10.0 - d as real, fuel - 1)
  }

  /** The exponent part of exponent notation: "e", its sign, its digits. */
  function ExponentSuffix(e: int): (x: string)
    ensures |x| >= 3 && x[0] == 'e' && x[1] == (if e < 0 then '-' else '+')
  {
    "e" + (if e < 0 then "-" else "+") + NatToDecimal(if e < 0 then -e else e)
  }

  /** Significant digits with the point after the first, when there are more. */
  function Significand(digits: string): string {
    if |digits| <= 1 then digits else digits[..1] + "." + digits[1..]
  }

  /** `String(d)` / `d.toString()`. Integers below 10^21 in magnitude
      print as their decimal text and other finite values in that range
      with a decimal point; from 10^21 up and below 10^-6 the value is
      written in exponent notation, ending in the exponent that brings it
      into [1, 10); NaN and the infinities print as words. Digits past the
      twentieth of a fraction are not written. */
  function NumberToString(d: Double): (s: string)
    ensures PrintsAsInteger(d) ==> s == IntToDecimal(d.value.Floor)
    ensures d.Finite? && !IsIntegral(d) && !UsesExponent(d.value) ==> '.' in s && 'e' !in s
    ensures d.Finite? && UsesExponent(d.value) ==>
      var x := ExponentSuffix(DecimalExponent(Abs(d.value)));
      'e' in s && |x| < |s| && s[|s| - |x|..] == x
    ensures d.Finite? ==> (s[0] == '-' <==> d.value < 0.0)
    ensures !d.Finite? ==> 'N' in s || 'I' in s
  {
    match d
    case NaN => "NaN"
    case PosInfinity => "Infinity"
    case NegInfinity => "-Infinity"
    case Finite(v) =>
      if UsesExponent(v) then ExponentText(v)
      else if v == v.Floor as real then IntToDecimal(v.Floor)
      else PointText(v)
  }

  /** Exponent notation: the sign, the significant digits with a point
      after the first, and the exponent that brings the value into
      [1, 10). */
  function ExponentText(v: real): (s: string)
    requires UsesExponent(v)
    ensures var x := ExponentSuffix(DecimalExponent(Abs(v)));
      'e' in s && |x| < |s| && s[|s| - |x|..] == x
    ensures s[0] == '-' <==> v < 0.0
  {
    var a := Abs(v);
    var sign := if v < 0.0 then "-" else "";
    var e := DecimalExponent(a);
    var x := ExponentSuffix(e);
    var s := sign + SignificandText(Scale(a, -e)) + x;
    assert s[|s| - |x|] == 'e';
    s
  }

  /** The significant digits of a value in [1, 10): its leading digit and,
      after a point, up to twenty more. */
  function SignificandText(m: real): (t: string)
    requires 1.0 <= m < 10.0
    ensures t != [] && IsDigit(t[0])
  {
    Significand([DigitChar(m.Floor)] + FractionDigits(m - m.Floor as real, 20))
  }

  /** Point notation for a value that is not whole: the sign, the integer
      part and, after a point, up to twenty fraction digits. */
  function PointText(v: real): (s: string)
    requires !UsesExponent(v) && v != v.Floor as real
    ensures '.' in s && 'e' !in s
    ensures s[0] == '-' <==> v < 0.0
  {
    var a := Abs(v);
    var sign := if v < 0.0 then "-" else "";
    var frac := FractionDigits(a - a.Floor as real, 20);
    var s := sign + NatToDecimal(a.Floor) + "." + frac;
    assert s[|s| - |frac| - 1] == '.';
    assert forall i :: 0 <= i < |s| ==> s[i] == '-' || s[i] == '.' || IsDigit(s[i]);
    s
  }

  // ---------------------------------------------------------------------
  // Python

  /** Python's rule for underscores in a numeric literal: each one stands
      between two digits. */
  predicate UnderscoresBetweenDigits(u: string) {
    forall i :: 0 <= i < |u| ==> FlankedIfUnderscore(u, i)
  }

  /** The character at `i` is no underscore, or one with a digit on each
      side. */
  predicate FlankedIfUnderscore(u: string, i: nat)
    requires i < |u|
  {
    u[i] == '_' ==> 0 < i < |u| - 1 && IsDigit(u[i - 1]) && IsDigit(u[i + 1])
  }

  /** The digit part Python's `int()` accepts: digits, with single
      underscores allowed between two digits. */
  predicate IsPyDigitGroups(u: string) {
    && |u| >= 1
    && (forall i :: 0 <= i < |u| ==> IsDigit(u[i]) || u[i] == '_')
    && UnderscoresBetweenDigits(u)
  }

  /** The text with its underscores dropped and everything else kept in
      order. */
  function WithoutUnderscores(u: string): (d: string)
    ensures '_' !in d && |d| <= |u|
    ensures forall c :: c in d ==> c in u
    ensures '_' !in u ==> d == u
  {
    if u == [] then []
    else
      var rest := WithoutUnderscores(u[1..]);
      assert forall c :: c in rest ==> c in u by {
        assert forall c :: c in u[1..] ==> c in u;
      }
      (if u[0] == '_' then [] else [u[0]]) + rest
  }

  /** Every character of `t` is its sign or a character of its unsigned part. */
  lemma UnsignedKeepsCharacters(t: string)
    ensures forall c :: c in t ==> IsSign(c) || c in Unsigned(t)
  {
    if t != [] && IsSign(t[0]) {
      assert t == [t[0]] + Unsigned(t);
    }
  }

  /** A character Python's `int()` can meet in text it accepts. */
  predicate IsPyIntChar(c: char) {
    IsPySpace(c) || IsDigit(c) || IsSign(c) || c == '_'
  }

  /** Python's `int(s)` for a string: surrounding white space, an optional
      sign, then digit groups; `None` stands for the `ValueError` it raises
      otherwise. Text it accepts holds nothing but white space, signs, digits
      and underscores. */
  function PyParseInt(s: string): (r: Option<int>)
    ensures r.Some? ==> forall c :: c in s ==> IsPyIntChar(c)
  {
    var t := PyStrip(s);
    assert forall c :: c in s && !IsPySpace(c) ==> c in t;
    PyIntOfStripped(t)
  }

  /** `PyParseInt` once the surrounding white space is gone. */
  function PyIntOfStripped(t: string): (r: Option<int>)
    ensures r.Some? ==> forall c :: c in t ==> IsPyIntChar(c)
  {
    var body := Unsigned(t);
    if IsPyDigitGroups(body) then
      UnsignedKeepsCharacters(t);
      assert forall c :: c in body ==> IsDigit(c) || c == '_';
      var digits := WithoutUnderscores(body);
      assert AllDigits(digits) by {
        forall i | 0 <= i < |digits| ensures IsDigit(digits[i]) {
          assert digits[i] in digits;
        }
      }
      var n := DecimalValue(digits);
      Some(if Negative(t) then -(n as int) else n)
    else None
  }

  /** `int(str(i)) == i`. */
  lemma PyIntOfIntegerText(i: int)
    ensures PyParseInt(IntToDecimal(i)) == Some(i)
  {
    IntegerTextStripped(i);
    IntegerTextSign(i);
    PyIntOfDigits(IntToDecimal(i));
  }

  /** `int` of text that is, inside white space and after a sign, a run of
      digits. */
  lemma PyIntOfDigits(s: string)
    requires var body := Unsigned(PyStrip(s)); |body| >= 1 && AllDigits(body)
    ensures var n := DecimalValue(Unsigned(PyStrip(s)));
      PyParseInt(s) == Some(if Negative(PyStrip(s)) then -(n as int) else n)
  {
    StrippedDigits(PyStrip(s));
  }

  /** `PyIntOfDigits` in the stripped view. */
  lemma StrippedDigits(t: string)
    requires var body := Unsigned(t); |body| >= 1 && AllDigits(body)
    ensures var n := DecimalValue(Unsigned(t));
      PyIntOfStripped(t) == Some(if Negative(t) then -(n as int) else n)
  {
    var body := Unsigned(t);
    assert '_' !in body;
    assert IsPyDigitGroups(body);
  }

  /** The decimal text of an integer has no white space to strip. */
  lemma IntegerTextStripped(i: int)
    ensures PyStrip(IntToDecimal(i)) == IntToDecimal(i)
  {
    var t := IntToDecimal(i);
    var d := NatToDecimal(if i < 0 then -i else i);
    assert t[|t| - 1] == d[|d| - 1];
    assert t[0] == '-' || t[0] == d[0];
    assert Trimmed(t, PySpaces);
  }

  /** The decimal text of an integer is its magnitude's digits, after a
      minus sign exactly when it is negative. */
  lemma IntegerTextSign(i: int)
    ensures Unsigned(IntToDecimal(i)) == NatToDecimal(if i < 0 then -i else i)
    ensures Negative(IntToDecimal(i)) <==> i < 0
  {
    var d := NatToDecimal(if i < 0 then -i else i);
    assert !IsSign(d[0]);
  }

  /** What `toString` writes for NaN, an infinity, a finite non-integer, or
      an integer of 10^21 or more in magnitude is text that Python's `int()`
      refuses. */
  lemma {:induction false} PyIntRejectsNonIntegerText(d: Double)
    requires !PrintsAsInteger(d)
    ensures PyParseInt(NumberToString(d)).None?
  {
    var c := ForeignCharacter(d);
  }

  /** The text of a number that does not print as an integer holds a
      character that is neither a comma nor anything Python's `int()`
      accepts: a point, an exponent mark, or a letter of "NaN" or
      "Infinity". */
  lemma {:induction false} ForeignCharacter(d: Double) returns (c: char)
    requires !PrintsAsInteger(d)
    ensures c in NumberToString(d) && c != ',' && !IsPyIntChar(c)
  {
    var t := NumberToString(d);
    MarksAreForeign();
    if !d.Finite? {
      c := if 'N' in t then 'N' else 'I';
    } else if UsesExponent(d.value) {
      c := 'e';
    } else {
      c := '.';
    }
  }

  lemma {:induction false} MarksAreForeign()
    ensures !IsPyIntChar('N') && !IsPyIntChar('I') && !IsPyIntChar('e') && !IsPyIntChar('.')
  {
  }

  function LowerAscii(s: string): (r: string)
    ensures |r| == |s|
    ensures forall i :: 0 <= i < |s| ==> r[i] == if 'A' <= s[i] <= 'Z' then ((s[i] as int) + 32) as char else s[i]
  {
    if s == [] then ""
    else [if 'A' <= s[0] <= 'Z' then ((s[0] as int) + 32) as char else s[0]] + LowerAscii(s[1..])
  }

  /** "inf" or "infinity" in any case. */
  predicate IsInfinityWord(body: string) {
    var word := LowerAscii(body);
    word == "inf" || word == "infinity"
  }

  /** "nan" in any case. */
  predicate IsNanWord(body: string) {
    LowerAscii(body) == "nan"
  }

  /** The value of an unsigned decimal literal whose underscores each stand
      between two digits. */
  function PyDecimal(body: string): (v: Option<real>)
    ensures v.Some? ==> UnderscoresBetweenDigits(body) && UnsignedDecimal(WithoutUnderscores(body)).Some?
  {
    if UnderscoresBetweenDigits(body) then UnsignedDecimal(WithoutUnderscores(body)) else None
  }

  /** Python's `float(s)` for a string: surrounding white space, an optional
      sign, then "inf", "infinity" or "nan" in any case, or a decimal literal
      whose underscores each stand between two digits; `None` stands for
      the `ValueError` it raises otherwise. */
  function PyParseFloat(s: string): (r: Option<Double>)
    ensures PyStrip(s) == "" ==> r.None?
    ensures r.Some? && r.value.Finite? ==>
      var body := Unsigned(PyStrip(s));
      && UnderscoresBetweenDigits(body)
      && UnsignedDecimal(WithoutUnderscores(body)).Some?
  {
    PyFloatOfStripped(PyStrip(s))
  }

  /** `float` of text already stripped of its surrounding white space. */
  function PyFloatOfStripped(t: string): (r: Option<Double>)
    ensures t == "" ==> r.None?
    ensures r.Some? && r.value.Finite? ==>
      var body := Unsigned(t);
      && UnderscoresBetweenDigits(body)
      && UnsignedDecimal(WithoutUnderscores(body)).Some?
  {
    var body := Unsigned(t);
    if IsInfinityWord(body) then Some(if Negative(t) then NegInfinity else PosInfinity)
    else if IsNanWord(body) then Some(NaN)
    else match PyDecimal(body)
      case Some(v) => Some(Finite(if Negative(t) then -v else v))
      case None => None
  }

}
