/** Stored file names. An uploaded file is stored as `<milliseconds>-<name>`;
    every edit stores its result as `<uuid>-<name>`, where `<name>` is the
    old stored name with its leading version prefix removed by the greedy
    pattern `^[a-f0-9-]+-`. */
module VersionNames {
  import opened Strings

  /** A character of the class `[a-f0-9-]`. */
  predicate IsPrefixChar(c: char) {
    ('a' <= c <= 'f') || IsDigit(c) || c == '-'
  }

  /** The pattern `^[a-f0-9-]+-` can match `name[..k + 1]`: at least one
      class character, then the dash at position `k`. */
  predicate MatchEndsAt(name: string, k: int) {
    && 1 <= k < |name|
    && name[k] == '-'
    && forall i :: 0 <= i < k ==> IsPrefixChar(name[i])
  }

  predicate HasVersionPrefix(name: string) {
    exists k :: 0 <= k < |name| && MatchEndsAt(name, k)
  }

  /** The length of the longest prefix of class characters. */
  function RunLength(s: string): (m: nat)
    ensures m <= |s|
    ensures forall i :: 0 <= i < m ==> IsPrefixChar(s[i])
    ensures m < |s| ==> !IsPrefixChar(s[m])
  {
    if s != [] && IsPrefixChar(s[0]) then 1 + RunLength(s[1..]) else 0
  }

  /** The largest `k` with `1 <= k < hi` and `s[k] == '-'`, or 0 if none. */
  function LastDashBelow(s: string, hi: nat): (k: nat)
    requires hi <= |s|
    ensures k == 0 || (1 <= k < hi && s[k] == '-')
    ensures forall j :: k < j < hi && j >= 1 ==> s[j] != '-'
    decreases hi
  {
    if hi <= 1 then 0
    else if s[hi - 1] == '-' then hi - 1
    else LastDashBelow(s, hi - 1)
  }

  /** `name.replace(/^[a-f0-9-]+-/, '')`: the regular expression is greedy,
      so it removes everything up to and including the last dash of the
      leading run of class characters, provided a class character precedes
      that dash. The result is always a suffix of the name; it differs from
      the name exactly when the pattern matches, and then it starts right
      after the last position where the pattern can end. */
  function StripVersionPrefix(name: string): (r: string)
    ensures |r| <= |name| && r == name[|name| - |r|..]
    ensures r == name <==> !HasVersionPrefix(name)
    ensures r != name ==> MatchEndsAt(name, |name| - |r| - 1)
    ensures r != name ==> forall k :: MatchEndsAt(name, k) ==> k <= |name| - |r| - 1
  {
    var m := RunLength(name);
    var k := LastDashBelow(name, m);
    if k == 0 then name
    else
      assert MatchEndsAt(name, k);
      name[k + 1..]
  }

  /** Stripping twice is stripping once. */
  lemma {:induction false} StripIdempotent(name: string)
    ensures StripVersionPrefix(StripVersionPrefix(name)) == StripVersionPrefix(name)
  {
  }

  /** No dash occurs in the leading run of class characters. */
  predicate NoDashInRun(s: string) {
    forall i :: 0 <= i < RunLength(s) ==> s[i] != '-'
  }

  /** A non-empty word of class characters. */
  predicate IsPrefixWord(u: string) {
    |u| >= 1 && forall i :: 0 <= i < |u| ==> IsPrefixChar(u[i])
  }

  /** Putting a class word and a dash in front of a name whose leading run
      holds no dash is undone by the strip. */
  lemma {:induction false} StripPrefixed(u: string, g: string)
    requires IsPrefixWord(u)
    requires NoDashInRun(g)
    ensures StripVersionPrefix(u + "-" + g) == g
  {
    var s := u + "-" + g;
    assert MatchEndsAt(s, |u|);
    forall k | |u| < k < |s| && s[k] == '-'
      ensures !IsPrefixChar(s[|u| + 1 + RunLength(g)])
    {
      assert g[k - |u| - 1] == '-';
    }
    assert s[|u| + 1..] == g;
  }

  /** What an edit leaves after the strip never has a dash in its leading
      run, unless the name had no version prefix and began with a dash. */
  lemma {:induction false} StrippedRunHasNoDash(name: string)
    requires HasVersionPrefix(name) || name == [] || name[0] != '-'
    ensures NoDashInRun(StripVersionPrefix(name))
  {
    var g := StripVersionPrefix(name);
    StripIdempotent(name);
  }

  // ---------------------------------------------------------------------
  // Names produced by uploads and edits

  predicate IsLowerHex(c: char) { IsDigit(c) || ('a' <= c <= 'f') }

  /** The text form of a random (version 4) UUID in lower case, as
      `crypto.randomUUID` produces it: 8-4-4-4-12 hexadecimal digits
      (section 3 of RFC 4122), version digit 4 and variant digit 8, 9, a or b
      (section 4.4). */
  predicate IsUuidText(u: string) {
    && |u| == 36
    && (forall i :: 0 <= i < 36 ==> if i == 8 || i == 13 || i == 18 || i == 23 then u[i] == '-' else IsLowerHex(u[i]))
    && u[14] == '4'
    && (u[19] == '8' || u[19] == '9' || u[19] == 'a' || u[19] == 'b')
  }

  /** The name an edit stores its output under: the fresh UUID, a dash, and
      the old name without its version prefix. */
  function EditedName(uuid: string, oldName: string): (r: string)
    requires IsUuidText(uuid)
    ensures |r| >= 37 && r[..37] == uuid + "-"
    ensures StripVersionPrefix(oldName) == r[37..]
  {
    uuid + "-" + StripVersionPrefix(oldName)
  }

  /** The name `upload` stores a file under: the upload time in milliseconds,
      a dash and the file's own name. */
  function UploadName(nowMs: nat, fileName: string): (r: string)
    ensures |r| > |fileName| + 1 && r[|r| - |fileName|..] == fileName
    ensures r[|r| - |fileName| - 1] == '-'
  {
    NatToDecimal(nowMs) + "-" + fileName
  }

  lemma UuidIsPrefixWord(uuid: string)
    requires IsUuidText(uuid)
    ensures IsPrefixWord(uuid)
  {
  }

  /** Editing a file that was already edited or uploaded keeps the name part:
      a further edit strips back to the same name. */
  lemma {:induction false} ReEditKeepsName(uuid: string, name: string)
    requires IsUuidText(uuid)
    requires HasVersionPrefix(name)
    ensures StripVersionPrefix(EditedName(uuid, name)) == StripVersionPrefix(name)
  {
    UuidIsPrefixWord(uuid);
    StrippedRunHasNoDash(name);
    StripPrefixed(uuid, StripVersionPrefix(name));
  }

  /** The same for two class words: `strip(u + "-" + strip(f)) == strip(f)`
      whenever `f = u' + "-" + rest`. */
  lemma {:induction false} ReStripKeepsName(u: string, u': string, rest: string)
    requires IsPrefixWord(u) && IsPrefixWord(u')
    ensures StripVersionPrefix(u + "-" + StripVersionPrefix(u' + "-" + rest)) == StripVersionPrefix(u' + "-" + rest)
  {
    var f := u' + "-" + rest;
    assert MatchEndsAt(f, |u'|);
    StrippedRunHasNoDash(f);
    StripPrefixed(u, StripVersionPrefix(f));
  }

  /** A freshly uploaded file strips back to its own name when that name's
      leading run of class characters holds no dash. */
  lemma {:induction false} UploadStripsToName(nowMs: nat, fileName: string)
    requires NoDashInRun(fileName)
    ensures StripVersionPrefix(UploadName(nowMs, fileName)) == fileName
  {
    StripPrefixed(NatToDecimal(nowMs), fileName);
  }

  /** A file name that itself starts with a class word and a dash (such as
      `2024-report.pdf` or `cafe-menu.pdf`) loses that word on its first
      edit. */
  lemma {:induction false} LeadingWordIsLost(nowMs: nat, word: string, rest: string)
    requires IsPrefixWord(word)
    requires NoDashInRun(rest)
    ensures StripVersionPrefix(UploadName(nowMs, word + "-" + rest)) == rest
  {
    var u := NatToDecimal(nowMs) + "-" + word;
    assert IsPrefixWord(u);
    assert UploadName(nowMs, word + "-" + rest) == u + "-" + rest;
    StripPrefixed(u, rest);
  }
}
