/** Text primitives shared by the TypeScript and Python sides: whitespace
    trimming, splitting on a separator and joining with it, substring search,
    and decimal rendering of integers (`str(n)` in Python, `n.toString()` in
    JavaScript, which agree on integers). */
module Strings {

  // ---------------------------------------------------------------------
  // Whitespace

  /** Characters Python's `str.strip()` removes (those for which
      `str.isspace()` holds). */
  predicate IsPySpace(c: char) {
    || c == ' ' || ('\t' <= c <= '\r') || ('\U{1c}' <= c <= '\U{1f}')
    || c == '\U{85}' || c == '\U{a0}' || c == '\U{1680}'
    || ('\U{2000}' <= c <= '\U{200a}') || c == '\U{2028}' || c == '\U{2029}'
    || c == '\U{202f}' || c == '\U{205f}' || c == '\U{3000}'
  }

  /** Characters JavaScript's `String.prototype.trim` removes (white space
      and line terminators of ECMA-262). */
  predicate IsJsSpace(c: char) {
    || c == ' ' || ('\t' <= c <= '\r') || c == '\U{a0}' || c == '\U{1680}'
    || ('\U{2000}' <= c <= '\U{200a}') || c == '\U{2028}' || c == '\U{2029}'
    || c == '\U{202f}' || c == '\U{205f}' || c == '\U{3000}' || c == '\U{feff}'
  }

  /** Which language's notion of white space a trim uses. */
  datatype Spaces = PySpaces | JsSpaces

  predicate IsSpace(ws: Spaces, c: char) {
    match ws
    case PySpaces => IsPySpace(c)
    case JsSpaces => IsJsSpace(c)
  }

  /** The index of the first character at or after `i` that is not white
      space, or `|s|` if there is none. */
  function SpaceRunEnd(s: string, ws: Spaces, i: nat): (k: nat)
    requires i <= |s|
    ensures i <= k <= |s|
    ensures forall j :: i <= j < k ==> IsSpace(ws, s[j])
    ensures k < |s| ==> !IsSpace(ws, s[k])
    decreases |s| - i
  {
    if i < |s| && IsSpace(ws, s[i]) then SpaceRunEnd(s, ws, i + 1) else i
  }

  /** The index just past the last character before `k` that is not white
      space, or 0 if there is none. */
  function SpaceRunStart(s: string, ws: Spaces, k: nat): (i: nat)
    requires k <= |s|
    ensures i <= k
    ensures forall j :: i <= j < k ==> IsSpace(ws, s[j])
    ensures i > 0 ==> !IsSpace(ws, s[i - 1])
  {
    if k > 0 && IsSpace(ws, s[k - 1]) then SpaceRunStart(s, ws, k - 1) else k
  }

  /** `s` without its leading white space. */
  function TrimStart(s: string, ws: Spaces): (r: string)
    ensures |r| <= |s|
    ensures |r| == |s| ==> r == s
    ensures |r| < |s| ==> r == s[|s| - |r|..]
    ensures forall i :: 0 <= i < |s| - |r| ==> IsSpace(ws, s[i])
    ensures r == [] || !IsSpace(ws, r[0])
  {
    var k := SpaceRunEnd(s, ws, 0);
    if k == 0 then s else s[k..]
  }

  /** `s` without its trailing white space. */
  function TrimEnd(s: string, ws: Spaces): (r: string)
    ensures |r| <= |s|
    ensures |r| == |s| ==> r == s
    ensures |r| < |s| ==> r == s[..|r|]
    ensures forall i :: |r| <= i < |s| ==> IsSpace(ws, s[i])
    ensures r == [] || !IsSpace(ws, r[|r| - 1])
  {
    var k := SpaceRunStart(s, ws, |s|);
    if k == |s| then s else s[..k]
  }

  /** Text that does not start with white space has nothing to trim at the
      start. */
  lemma TrimStartUnspaced(s: string, ws: Spaces)
    requires s != [] && !IsSpace(ws, s[0])
    ensures TrimStart(s, ws) == s
  {
    assert SpaceRunEnd(s, ws, 0) == 0;
  }

  /** Neither end of `s` is white space. */
  predicate Trimmed(s: string, ws: Spaces) {
    s == [] || (!IsSpace(ws, s[0]) && !IsSpace(ws, s[|s| - 1]))
  }

  /** Trimming the start keeps every character that is not white space. */
  lemma TrimStartKeeps(s: string, ws: Spaces, c: char)
    requires c in s && !IsSpace(ws, c)
    ensures c in TrimStart(s, ws)
  {
    var a := TrimStart(s, ws);
    var k :| 0 <= k < |s| && s[k] == c;
    assert a[k - (|s| - |a|)] == c;
  }

  /** Trimming the end keeps every character that is not white space. */
  lemma TrimEndKeeps(s: string, ws: Spaces, c: char)
    requires c in s && !IsSpace(ws, c)
    ensures c in TrimEnd(s, ws)
  {
    var a := TrimEnd(s, ws);
    var k :| 0 <= k < |s| && s[k] == c;
    assert a[k] == c;
  }

  /** Both-ends trimming: the result starts and ends with a non-space, and
      leaves an already trimmed `s` alone. */
  function Trim(s: string, ws: Spaces): (r: string)
    ensures Trimmed(r, ws)
    ensures |r| <= |s|
    ensures Trimmed(s, ws) ==> r == s
  {
    var a := TrimStart(s, ws);
    var r := TrimEnd(a, ws);
    assert r != [] ==> r[0] == a[0];
    r
  }

  /** Trimming keeps only characters of `s`. */
  lemma TrimWithin(s: string, ws: Spaces, c: char)
    requires c in Trim(s, ws)
    ensures c in s
  {
    var a := TrimStart(s, ws);
    var k :| 0 <= k < |Trim(s, ws)| && Trim(s, ws)[k] == c;
    assert a[k] == c;
    assert s[k + |s| - |a|] == c;
  }

  /** Trimming keeps every character that is not white space. */
  lemma TrimKeeps(s: string, ws: Spaces, c: char)
    requires c in s && !IsSpace(ws, c)
    ensures c in Trim(s, ws)
  {
    TrimStartKeeps(s, ws, c);
    TrimEndKeeps(TrimStart(s, ws), ws, c);
  }

  /** White space around text that neither starts nor ends with white
      space is exactly what trimming removes. */
  lemma TrimPadded(pad: string, t: string, ws: Spaces)
    requires forall i :: 0 <= i < |pad| ==> IsSpace(ws, pad[i])
    requires t != [] && !IsSpace(ws, t[0]) && !IsSpace(ws, t[|t| - 1])
    ensures Trim(pad + t + pad, ws) == t
  {
    TrimStartPadded(pad, t + pad, ws);
    assert pad + t + pad == pad + (t + pad);
    TrimEndPadded(t, pad, ws);
  }

  lemma TrimStartPadded(pad: string, t: string, ws: Spaces)
    requires forall i :: 0 <= i < |pad| ==> IsSpace(ws, pad[i])
    requires t != [] && !IsSpace(ws, t[0])
    ensures TrimStart(pad + t, ws) == t
  {
    var s := pad + t;
    var r := TrimStart(s, ws);
    assert s[|pad|] == t[0];
    assert s[|pad|..] == t;
  }

  lemma TrimEndPadded(t: string, pad: string, ws: Spaces)
    requires forall i :: 0 <= i < |pad| ==> IsSpace(ws, pad[i])
    requires t != [] && !IsSpace(ws, t[|t| - 1])
    ensures TrimEnd(t + pad, ws) == t
  {
    var s := t + pad;
    var r := TrimEnd(s, ws);
    assert s[|t| - 1] == t[|t| - 1];
    assert s[..|t|] == t;
  }

  /** Python `s.strip()`. */
  function PyStrip(s: string): string { Trim(s, PySpaces) }

  /** JavaScript `s.trim()`. */
  function JsTrim(s: string): string { Trim(s, JsSpaces) }

  lemma PyStripIdempotent(s: string)
    ensures PyStrip(PyStrip(s)) == PyStrip(s)
  {
  }

  // ---------------------------------------------------------------------
  // Splitting and joining on a one-character separator

  /** `parts.join(sep)` in JavaScript, `sep.join(parts)` in Python. */
  function Join(parts: seq<string>, sep: char): string
  {
    if |parts| == 0 then ""
    else if |parts| == 1 then parts[0]
    else parts[0] + [sep] + Join(parts[1..], sep)
  }

  /** `s.split(sep)` in both languages: never empty (the empty string splits
      into one empty field), no field holds the separator, and joining the
      fields again gives back `s`. */
  function Split(s: string, sep: char): (parts: seq<string>)
    ensures |parts| >= 1
    ensures forall i :: 0 <= i < |parts| ==> sep !in parts[i]
    ensures Join(parts, sep) == s
  {
    if s == [] then [""]
    else
      var rest := Split(s[1..], sep);
      if s[0] == sep then
        assert ([""] + rest)[1..] == rest;
        [""] + rest
      else
        var parts := [[s[0]] + rest[0]] + rest[1..];
        assert parts[1..] == rest[1..];
        assert |rest| > 1 ==> Join(rest, sep) == rest[0] + [sep] + Join(rest[1..], sep);
        parts
  }

  /** Splitting text that starts with a separator-free field `a`. */
  lemma {:induction false} SplitAfterField(a: string, b: string, sep: char)
    requires sep !in a
    ensures Split(a + b, sep) == [a + Split(b, sep)[0]] + Split(b, sep)[1..]
  {
    if a != [] {
      var x := Split(b, sep);
      assert a[0] in a;
      assert (a + b)[1..] == a[1..] + b;
      SplitAfterField(a[1..], b, sep);
      var rest := Split(a[1..] + b, sep);
      assert rest == [a[1..] + x[0]] + x[1..];
      assert rest[0] == a[1..] + x[0];
      assert rest[1..] == x[1..];
      assert [a[0]] + (a[1..] + x[0]) == a + x[0];
      assert (a + b)[0] == a[0] != sep;
      assert Split(a + b, sep) == [[a[0]] + rest[0]] + rest[1..];
    } else {
      var x := Split(b, sep);
      assert a + b == b;
      assert a + x[0] == x[0];
      assert [x[0]] + x[1..] == x;
    }
  }

  /** Splitting undoes joining when no field holds the separator and there
      is at least one field (joining no fields gives "", which splits into
      one empty field). */
  lemma {:induction false} SplitJoin(parts: seq<string>, sep: char)
    requires |parts| >= 1
    requires forall i :: 0 <= i < |parts| ==> sep !in parts[i]
    ensures Split(Join(parts, sep), sep) == parts
  {
    if |parts| == 1 {
      SplitAfterField(parts[0], "", sep);
      assert parts[0] + "" == parts[0];
    } else {
      var tail := Join(parts[1..], sep);
      assert Join(parts, sep) == parts[0] + ([sep] + tail);
      SplitJoin(parts[1..], sep);
      SplitAfterField(parts[0], [sep] + tail, sep);
      SplitLeadingSeparator(tail, sep);
      assert parts[0] + "" == parts[0];
      assert parts == [parts[0]] + parts[1..];
    }
  }

  /** Text that starts with the separator has an empty first field. */
  lemma SplitLeadingSeparator(t: string, sep: char)
    ensures Split([sep] + t, sep) == [""] + Split(t, sep)
  {
    assert ([sep] + t)[1..] == t;
  }

  // ---------------------------------------------------------------------
  // Substrings

  /** JavaScript `s.includes(sub)`. */
  predicate Contains(s: string, sub: string) {
    exists i :: 0 <= i <= |s| - |sub| && OccursAt(s, sub, i)
  }

  predicate OccursAt(s: string, sub: string, i: int)
    requires 0 <= i <= |s| - |sub|
  {
    s[i..i + |sub|] == sub
  }

  // ---------------------------------------------------------------------
  // Decimal digits

  predicate IsDigit(c: char) { '0' <= c <= '9' }

  predicate AllDigits(s: string) { forall i :: 0 <= i < |s| ==> IsDigit(s[i]) }

  function DigitValue(c: char): nat
    requires IsDigit(c)
  {
    (c as int) - ('0' as int)
  }

  function DigitChar(d: nat): (c: char)
    requires d < 10
    ensures IsDigit(c) && DigitValue(c) == d
  {
    (('0' as int) + d) as char
  }

  /** The value of a string of decimal digits, most significant first. */
  function DecimalValue(s: string): nat
    requires AllDigits(s)
  {
    if s == [] then 0 else DecimalValue(s[..|s| - 1]) * 10 + DigitValue(s[|s| - 1])
  }

  /** The decimal text of a natural number: non-empty, digits only, no
      leading zero, and it reads back as the same number. */
  function NatToDecimal(n: nat): (s: string)
    ensures |s| >= 1 && AllDigits(s)
    ensures |s| > 1 ==> s[0] != '0'
    ensures DecimalValue(s) == n
  {
    if n < 10 then [DigitChar(n)]
    else
      var s := NatToDecimal(n / 10) + [DigitChar(n % 10)];
      assert s[..|s| - 1] == NatToDecimal(n / 10);
      s
  }

  /** `str(i)` in Python, `String(i)` in JavaScript, for an integer. */
  function IntToDecimal(i: int): (s: string)
    ensures |s| >= 1
    ensures i >= 0 ==> s == NatToDecimal(i)
    ensures i < 0 ==> s == "-" + NatToDecimal(-i)
  {
    if i < 0 then "-" + NatToDecimal(-i) else NatToDecimal(i)
  }
}
