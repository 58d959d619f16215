/**
 * The Python `str` operations the CGI scripts rely on, stated over `seq<char>`:
 * `strip`, `split`, `join`, `in`, `startswith`, `lower`, `isalnum`,
 * `html.escape`, `int()`, `str(int)` and `os.path.splitext`.
 */
module Text {
  import opened Wrappers

  // ---------------------------------------------------------------------------
  // Whitespace and `str.strip()`
  // ---------------------------------------------------------------------------

  /** Python's `str.isspace()` for one character. */
  predicate IsSpace(c: char) {
    c == ' ' || ('\t' <= c <= '\r') || ('\U{1c}' <= c <= '\U{1f}')
    || c == '\U{85}' || c == '\U{a0}' || c == '\U{1680}'
    || ('\U{2000}' <= c <= '\U{200a}') || c == '\U{2028}' || c == '\U{2029}'
    || c == '\U{202f}' || c == '\U{205f}' || c == '\U{3000}'
  }

  predicate AllSpace(s: string) {
    forall i :: 0 <= i < |s| ==> IsSpace(s[i])
  }

  /** Number of whitespace characters `strip` removes at the front. */
  function LeadingSpaces(s: string): (k: nat)
    ensures k <= |s|
    ensures forall i :: 0 <= i < k ==> IsSpace(s[i])
    ensures k < |s| ==> !IsSpace(s[k])
  {
    if |s| > 0 && IsSpace(s[0]) then 1 + LeadingSpaces(s[1..]) else 0
  }

  /** Number of whitespace characters `strip` removes at the back. */
  function TrailingSpaces(s: string): (k: nat)
    ensures k <= |s|
    ensures forall i :: |s| - k <= i < |s| ==> IsSpace(s[i])
    ensures k < |s| ==> !IsSpace(s[|s| - k - 1])
  {
    if |s| > 0 && IsSpace(s[|s| - 1]) then 1 + TrailingSpaces(s[..|s| - 1]) else 0
  }

  /** Python's `s.strip()`: the longest slice of `s` with no whitespace at either end. */
  function Strip(s: string): (r: string)
    ensures LeadingSpaces(s) + |r| <= |s|
    ensures r == s[LeadingSpaces(s)..LeadingSpaces(s) + |r|]
    ensures r == [] || (!IsSpace(r[0]) && !IsSpace(r[|r| - 1]))
    ensures r == [] <==> AllSpace(s)
    ensures AllSpace(s[LeadingSpaces(s) + |r|..])
  {
    var a := LeadingSpaces(s);
    var t := s[a..];
    var r := t[..|t| - TrailingSpaces(t)];
    assert s[a + |r|..] == t[|r|..];
    r
  }

  /** A string with no whitespace at either end is its own `strip()`. */
  lemma StripUnpadded(s: string)
    requires |s| > 0 ==> !IsSpace(s[0]) && !IsSpace(s[|s| - 1])
    ensures Strip(s) == s
  {
    assert LeadingSpaces(s) == 0;
    assert TrailingSpaces(s) == 0;
  }

  lemma {:induction false} LeadingSpacesAppend(v: string, w: string)
    requires !AllSpace(v)
    ensures LeadingSpaces(v + w) == LeadingSpaces(v)
  {
    assert (v + w)[0] == v[0];
    if IsSpace(v[0]) {
      assert (v + w)[1..] == v[1..] + w;
      LeadingSpacesAppend(v[1..], w);
    }
  }

  lemma {:induction false} TrailingSpacesAppend(t: string, w: string)
    requires AllSpace(w)
    requires !AllSpace(t)
    ensures TrailingSpaces(t + w) == TrailingSpaces(t) + |w|
    decreases |w|
  {
    if |w| > 0 {
      var u := t + w;
      assert u[|u| - 1] == w[|w| - 1];
      assert u[..|u| - 1] == t + w[..|w| - 1];
      TrailingSpacesAppend(t, w[..|w| - 1]);
    } else {
      assert t + w == t;
    }
  }

  lemma AllSpaceAppend(v: string, w: string)
    requires AllSpace(v) && AllSpace(w)
    ensures AllSpace(v + w)
  {
    var s := v + w;
    forall i | 0 <= i < |s| ensures IsSpace(s[i]) {
      if i < |v| { assert s[i] == v[i]; } else { assert s[i] == w[i - |v|]; }
    }
  }

  /** The characterization of `Strip` through the two whitespace counts. */
  lemma StripByCounts(s: string)
    ensures Strip(s) == s[LeadingSpaces(s)..][..|s| - LeadingSpaces(s) - TrailingSpaces(s[LeadingSpaces(s)..])]
  {
  }

  lemma StripPaddedText(v: string, w: string)
    requires AllSpace(w) && !AllSpace(v)
    ensures Strip(v + w) == Strip(v)
  {
    var a := LeadingSpaces(v);
    LeadingSpacesAppend(v, w);
    var t := v[a..];
    assert (v + w)[a..] == t + w;
    assert !AllSpace(t) by {
      assert t[0] == v[a];
    }
    TrailingSpacesAppend(t, w);
    StripByCounts(v);
    StripByCounts(v + w);
  }

  /** Appending whitespace does not change `strip()`. */
  lemma StripIgnoresTrailingSpace(v: string, w: string)
    requires AllSpace(w)
    ensures Strip(v + w) == Strip(v)
  {
    if AllSpace(v) {
      AllSpaceAppend(v, w);
      assert Strip(v + w) == [];
    } else {
      StripPaddedText(v, w);
    }
  }

  // ---------------------------------------------------------------------------
  // Substrings: `in`, `startswith`, `str.find`
  // ---------------------------------------------------------------------------

  /** `sub` occurs in `s` starting at index `i`. */
  predicate OccursAt(s: string, sub: string, i: int) {
    0 <= i && i + |sub| <= |s| && s[i..i + |sub|] == sub
  }

  /** Python's `s.startswith(p)`. */
  predicate StartsWith(s: string, p: string) {
    |p| <= |s| && s[..|p|] == p
  }

  /** The leftmost occurrence of `sub` in `s` at or after index `i`. */
  function IndexFrom(s: string, sub: string, i: nat): (r: Option<nat>)
    ensures r.Some? ==> i <= r.value && OccursAt(s, sub, r.value)
    ensures r.Some? ==> forall j :: i <= j < r.value ==> !OccursAt(s, sub, j)
    ensures r.None? ==> forall j :: i <= j ==> !OccursAt(s, sub, j)
    decreases |s| - i
  {
    if i + |sub| > |s| then None
    else if s[i..i + |sub|] == sub then Some(i)
    else IndexFrom(s, sub, i + 1)
  }

  /** Python's `s.find(sub)`: the leftmost occurrence of `sub`, if any. */
  function IndexOf(s: string, sub: string): (r: Option<nat>)
    ensures r.Some? ==> OccursAt(s, sub, r.value)
    ensures r.Some? ==> forall i :: 0 <= i < r.value ==> !OccursAt(s, sub, i)
    ensures r.None? ==> forall i :: !OccursAt(s, sub, i)
  {
    IndexFrom(s, sub, 0)
  }

  /** Python's `sub in s`. */
  predicate Contains(s: string, sub: string) {
    IndexOf(s, sub).Some?
  }

  lemma OccursInPrefix(s: string, sub: string, k: nat, i: nat)
    requires k <= |s|
    requires OccursAt(s[..k], sub, i)
    ensures OccursAt(s, sub, i) && i + |sub| <= k
  {
    assert s[..k][i..i + |sub|] == s[i..i + |sub|];
  }

  // ---------------------------------------------------------------------------
  // `str.split(sep)` and `sep.join(parts)`
  // ---------------------------------------------------------------------------

  /** Python's `s.split(sep)` for a non-empty separator. */
  function SplitOn(s: string, sep: string): (parts: seq<string>)
    requires |sep| > 0
    ensures 1 <= |parts| <= |s| + 1
    decreases |s|
  {
    match IndexOf(s, sep)
    case None => [s]
    case Some(k) => [s[..k]] + SplitOn(s[k + |sep|..], sep)
  }

  /**
   * The pieces of a split: the first is the text before the first occurrence
   * (all of `s` when there is none) and no piece contains the separator.
   */
  lemma {:induction false} SplitPieces(s: string, sep: string)
    requires |sep| > 0
    ensures IndexOf(s, sep).None? ==> SplitOn(s, sep) == [s]
    ensures IndexOf(s, sep).Some? ==> |SplitOn(s, sep)| >= 2 && SplitOn(s, sep)[0] == s[..IndexOf(s, sep).value]
    ensures forall i :: 0 <= i < |SplitOn(s, sep)| ==> !Contains(SplitOn(s, sep)[i], sep)
    decreases |s|
  {
    match IndexOf(s, sep)
    case None =>
    case Some(k) =>
      var head := s[..k];
      var rest := s[k + |sep|..];
      assert !Contains(head, sep) by {
        if Contains(head, sep) {
          OccursInPrefix(s, sep, k, IndexOf(head, sep).value);
        }
      }
      SplitPieces(rest, sep);
      var parts := SplitOn(s, sep);
      assert parts == [head] + SplitOn(rest, sep);
      forall i | 0 <= i < |parts| ensures !Contains(parts[i], sep) {
        if i > 0 {
          assert parts[i] == SplitOn(rest, sep)[i - 1];
        }
      }
  }

  /** Python's `sep.join(parts)`. */
  function Join(sep: string, parts: seq<string>): string
    decreases |parts|
  {
    if |parts| == 0 then ""
    else if |parts| == 1 then parts[0]
    else parts[0] + sep + Join(sep, parts[1..])
  }

  /** Splitting on a separator and joining the pieces back gives the original string. */
  lemma {:induction false} JoinSplit(s: string, sep: string)
    requires |sep| > 0
    ensures Join(sep, SplitOn(s, sep)) == s
    decreases |s|
  {
    match IndexOf(s, sep)
    case None =>
    case Some(k) =>
      var rest := s[k + |sep|..];
      var tail := SplitOn(rest, sep);
      JoinSplit(rest, sep);
      var parts := SplitOn(s, sep);
      assert parts == [s[..k]] + tail;
      assert parts[1..] == tail;
      assert s[k..k + |sep|] == sep;
      assert s == s[..k] + s[k..k + |sep|] + rest;
  }

  /** The longest prefix of `s` without `c` (a regex `[^c]+` run). */
  function RunUntil(s: string, c: char): (r: string)
    ensures StartsWith(s, r)
    ensures c !in r
    ensures |r| < |s| ==> s[|r|] == c
  {
    if |s| == 0 || s[0] == c then "" else [s[0]] + RunUntil(s[1..], c)
  }

  // ---------------------------------------------------------------------------
  // Character classes and case
  // ---------------------------------------------------------------------------

  predicate IsDigit(c: char) {
    '0' <= c <= '9'
  }

  /** `str.isalnum()`, restricted to ASCII letters and digits. */
  predicate IsAlnum(c: char) {
    IsDigit(c) || ('a' <= c <= 'z') || ('A' <= c <= 'Z')
  }

  function LowerChar(c: char): (d: char)
    ensures !('A' <= d <= 'Z')
  {
    if 'A' <= c <= 'Z' then (c as int + 32) as char else c
  }

  /** `str.lower()`, restricted to ASCII letters. */
  function Lower(s: string): (r: string)
    ensures |r| == |s|
    ensures forall i :: 0 <= i < |s| ==> r[i] == LowerChar(s[i])
  {
    if |s| == 0 then "" else [LowerChar(s[0])] + Lower(s[1..])
  }

  // ---------------------------------------------------------------------------
  // `html.escape(s)` (quote=True)
  // ---------------------------------------------------------------------------

  /** The characters `html.escape` rewrites. */
  predicate IsMarkup(c: char) {
    c == '&' || c == '<' || c == '>' || c == '"' || c == '\''
  }

  function EscapeChar(c: char): (r: string)
    ensures |r| >= 1
    ensures forall i :: 0 <= i < |r| ==> r[i] != '<' && r[i] != '>' && r[i] != '"' && r[i] != '\''
  {
    if c == '&' then "&amp;"
    else if c == '<' then "&lt;"
    else if c == '>' then "&gt;"
    else if c == '"' then "&quot;"
    else if c == '\'' then "&#x27;"
    else [c]
  }

  /**
   * `html.escape(s)`: replaces `&`, `<`, `>`, `"` and `'` by their entities.
   * Its five sequential `replace` calls start with `&`, so no entity is
   * rewritten twice and the per-character mapping below is the same function.
   */
  function Escape(s: string): (r: string)
    ensures |r| >= |s|
    ensures r == "" <==> s == ""
    ensures forall i :: 0 <= i < |r| ==> r[i] != '<' && r[i] != '>' && r[i] != '"' && r[i] != '\''
  {
    if s == "" then ""
    else
      var head := EscapeChar(s[0]);
      var tail := Escape(s[1..]);
      assert forall i :: 0 <= i < |head + tail| ==>
        (head + tail)[i] == if i < |head| then head[i] else tail[i - |head|];
      head + tail
  }

  /** `html.unescape` for exactly the five entities `Escape` produces. */
  function Unescape(t: string): string
    decreases |t|
  {
    if |t| == 0 then ""
    else if StartsWith(t, "&amp;") then "&" + Unescape(t[5..])
    else if StartsWith(t, "&lt;") then "<" + Unescape(t[4..])
    else if StartsWith(t, "&gt;") then ">" + Unescape(t[4..])
    else if StartsWith(t, "&quot;") then "\"" + Unescape(t[6..])
    else if StartsWith(t, "&#x27;") then "'" + Unescape(t[6..])
    else [t[0]] + Unescape(t[1..])
  }

  lemma NotStartsWith(t: string, p: string, i: nat)
    requires i < |p| && i < |t| && t[i] != p[i]
    ensures !StartsWith(t, p)
  {
    if |p| <= |t| {
      assert t[..|p|][i] == t[i];
    }
  }

  /** Unescaping undoes the escape of one character, whatever follows it. */
  lemma UnescapeStep(c: char, rest: string)
    ensures Unescape(EscapeChar(c) + rest) == [c] + Unescape(rest)
  {
    var t := EscapeChar(c) + rest;
    if c == '&' {
      assert t[..5] == "&amp;";
      assert t[5..] == rest;
    } else if c == '<' {
      NotStartsWith(t, "&amp;", 1);
      assert t[..4] == "&lt;";
      assert t[4..] == rest;
    } else if c == '>' {
      NotStartsWith(t, "&amp;", 1);
      NotStartsWith(t, "&lt;", 1);
      assert t[..4] == "&gt;";
      assert t[4..] == rest;
    } else if c == '"' {
      NotStartsWith(t, "&amp;", 1);
      NotStartsWith(t, "&lt;", 1);
      NotStartsWith(t, "&gt;", 1);
      assert t[..6] == "&quot;";
      assert t[6..] == rest;
    } else if c == '\'' {
      NotStartsWith(t, "&amp;", 1);
      NotStartsWith(t, "&lt;", 1);
      NotStartsWith(t, "&gt;", 1);
      NotStartsWith(t, "&quot;", 1);
      assert t[..6] == "&#x27;";
      assert t[6..] == rest;
    } else {
      NotStartsWith(t, "&amp;", 0);
      NotStartsWith(t, "&lt;", 0);
      NotStartsWith(t, "&gt;", 0);
      NotStartsWith(t, "&quot;", 0);
      NotStartsWith(t, "&#x27;", 0);
      assert t[1..] == rest;
    }
  }

  /** Escaping loses nothing: unescaping the result gives the original text back. */
  lemma {:induction false} UnescapeEscape(s: string)
    ensures Unescape(Escape(s)) == s
  {
    if s != "" {
      UnescapeEscape(s[1..]);
      UnescapeStep(s[0], Escape(s[1..]));
    }
  }

  // ---------------------------------------------------------------------------
  // Integers: `int(s)` and `str(n)`
  // ---------------------------------------------------------------------------

  function DigitValue(c: char): nat
    requires IsDigit(c)
  {
    c as int - '0' as int
  }

  function DigitChar(d: nat): (c: char)
    requires d < 10
    ensures IsDigit(c) && DigitValue(c) == d
  {
    ('0' as int + d) as char
  }

  predicate AllDigits(s: string) {
    forall i :: 0 <= i < |s| ==> IsDigit(s[i])
  }

  /** The value of a decimal numeral. */
  function DigitsValue(s: string): nat
    requires AllDigits(s)
    decreases |s|
  {
    if |s| == 0 then 0 else DigitsValue(s[..|s| - 1]) * 10 + DigitValue(s[|s| - 1])
  }

  /** The decimal numeral of a natural number; reading it back gives the number. */
  function NatToString(n: nat): (s: string)
    ensures |s| > 0 && AllDigits(s)
    ensures DigitsValue(s) == n
  {
    if n < 10 then [DigitChar(n)]
    else
      var s := NatToString(n / 10) + [DigitChar(n % 10)];
      assert s[..|s| - 1] == NatToString(n / 10);
      s
  }

  /** Python's `str(n)` for an `int`. */
  function IntToString(n: int): (s: string)
    ensures |s| > 0
  {
    if n < 0 then "-" + NatToString(-n) else NatToString(n)
  }

  /** What Python's `int()` accepts, once `strip()`ped: an optional sign and decimal digits. */
  predicate IsIntLiteral(t: string) {
    || (|t| > 0 && AllDigits(t))
    || (|t| > 1 && (t[0] == '-' || t[0] == '+') && AllDigits(t[1..]))
  }

  /** Python's `int(s)`: `None` where Python raises `ValueError`. */
  function ParseInt(s: string): (r: Option<int>)
    ensures r.Some? <==> IsIntLiteral(Strip(s))
    ensures r.Some? && AllDigits(Strip(s)) ==> r.value == DigitsValue(Strip(s))
    ensures r.Some? && Strip(s)[0] == '-' ==> r.value == -(DigitsValue(Strip(s)[1..]) as int)
    ensures r.Some? && Strip(s)[0] == '+' ==> r.value == DigitsValue(Strip(s)[1..])
  {
    var t := Strip(s);
    if |t| > 1 && (t[0] == '-' || t[0] == '+') && AllDigits(t[1..]) then
      Some(if t[0] == '-' then -(DigitsValue(t[1..]) as int) else DigitsValue(t[1..]))
    else if |t| > 0 && AllDigits(t) then
      Some(DigitsValue(t))
    else
      None
  }

  /** `int(str(n)) == n`. */
  lemma ParseIntToString(n: int)
    ensures ParseInt(IntToString(n)) == Some(n)
  {
    var s := IntToString(n);
    if n < 0 {
      var ds := NatToString(-n);
      assert s[1..] == ds;
      StripUnpadded(s);
    } else {
      StripUnpadded(s);
    }
  }

  // ---------------------------------------------------------------------------
  // `os.path.splitext` (POSIX)
  // ---------------------------------------------------------------------------

  /** Index of the last `c` in `s`, or -1. */
  function LastIndex(s: string, c: char): (r: int)
    ensures -1 <= r < |s|
    ensures r >= 0 ==> s[r] == c
    ensures forall i :: r < i < |s| ==> s[i] != c
  {
    if |s| == 0 then -1
    else if s[|s| - 1] == c then |s| - 1
    else LastIndex(s[..|s| - 1], c)
  }

  /**
   * The extension `os.path.splitext(p)[1]`: from the last dot of the last path
   * component, unless everything before that dot in the component is dots.
   */
  function Ext(p: string): (e: string)
    ensures e == "" || (e[0] == '.' && '.' !in e[1..] && '/' !in e)
    ensures |e| <= |p| && e == p[|p| - |e|..]
  {
    var dot := LastIndex(p, '.');
    var slash := LastIndex(p, '/');
    if dot > slash && exists i :: slash + 1 <= i < dot && p[i] != '.' then
      assert forall j :: 0 <= j < |p[dot..]| - 1 ==> p[dot..][1..][j] == p[dot + 1 + j];
      p[dot..]
    else ""
  }
}
