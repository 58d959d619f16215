/**
 * The hand-written `multipart/form-data` reader shared, word for word, by the
 * four marketing endpoints (`careers_api.py`, `team_api.py`, `products_api.py`,
 * `resources_api.py`) and the admin login (`auth_api.py`), together with
 * `parse_form_data`, which picks it or the URL-encoded reader.
 *
 * The reader as written starts looking for the blank line that ends a part's
 * headers at the part's first line, which after the delimiter is always empty;
 * every value therefore carries its own header lines. `Parse(…, 0)` is that
 * reader; `Parse(…, 1)` starts the search after the first line and is the one
 * the endpoints use in this model.
 */
module Multipart {
  import opened Wrappers
  import opened Text

  const CRLF := "\r\n"

  /** One `name="…"` field of a decoded body. */
  datatype Field = Field(name: string, value: string)

  // ---------------------------------------------------------------------------
  // The two regular expressions: `boundary=([^;]+)` and `name="([^"]+)"`
  // ---------------------------------------------------------------------------

  /**
   * The pattern `key([^stop]+)` (followed by `stop` when `closed`) matches at
   * index `j` of `s`. The greedy run is the longest `stop`-free prefix, so a
   * closing `stop` matches exactly when that run does not reach the end.
   */
  predicate ParamAt(s: string, key: string, stop: char, closed: bool, j: int) {
    OccursAt(s, key, j)
    && |RunUntil(s[j + |key|..], stop)| > 0
    && (closed ==> j + |key| + |RunUntil(s[j + |key|..], stop)| < |s|)
  }

  /** `re.search`: the leftmost index at or after `i` where the pattern matches. */
  function FirstParam(s: string, key: string, stop: char, closed: bool, i: nat): (r: Option<nat>)
    ensures r.Some? ==> i <= r.value && ParamAt(s, key, stop, closed, r.value)
    ensures r.Some? ==> forall j :: i <= j < r.value ==> !ParamAt(s, key, stop, closed, j)
    ensures r.None? ==> forall j :: i <= j ==> !ParamAt(s, key, stop, closed, j)
    decreases |s| - i
  {
    if i + |key| > |s| then None
    else if ParamAt(s, key, stop, closed, i) then Some(i)
    else FirstParam(s, key, stop, closed, i + 1)
  }

  /** The captured group of the leftmost match, if the pattern matches at all. */
  function Param(s: string, key: string, stop: char, closed: bool): (r: Option<string>)
    ensures r.Some? <==> exists j :: ParamAt(s, key, stop, closed, j)
    ensures r.Some? ==> |r.value| > 0 && stop !in r.value
  {
    match FirstParam(s, key, stop, closed, 0)
    case None => None
    case Some(j) => Some(RunUntil(s[j + |key|..], stop))
  }

  /** A match at `j` with no occurrence of the key before it is the one `re.search` reports. */
  lemma ParamIsFirst(s: string, key: string, stop: char, closed: bool, j: nat)
    requires ParamAt(s, key, stop, closed, j)
    requires forall k :: 0 <= k < j ==> !OccursAt(s, key, k)
    ensures Param(s, key, stop, closed) == Some(RunUntil(s[j + |key|..], stop))
  {
    FirstParamReaches(s, key, stop, closed, 0, j);
    var m := FirstParam(s, key, stop, closed, 0).value;
    assert OccursAt(s, key, m);
  }

  /** A match at `j` means the search from `i <= j` succeeds at or before `j`. */
  lemma {:induction false} FirstParamReaches(s: string, key: string, stop: char, closed: bool, i: nat, j: nat)
    requires i <= j && ParamAt(s, key, stop, closed, j)
    ensures FirstParam(s, key, stop, closed, i).Some? && FirstParam(s, key, stop, closed, i).value <= j
    decreases j - i
  {
    if i < j && !ParamAt(s, key, stop, closed, i) {
      FirstParamReaches(s, key, stop, closed, i + 1, j);
    }
  }

  /** The run up to a separator is the text before it. */
  lemma {:induction false} RunUntilStops(a: string, c: char, b: string)
    requires c !in a
    ensures RunUntil(a + [c] + b, c) == a
  {
    if |a| > 0 {
      assert (a + [c] + b)[1..] == a[1..] + [c] + b;
      RunUntilStops(a[1..], c, b);
    }
  }

  /** The boundary parameter of a `Content-Type` header (line 113). */
  function BoundaryParam(contentType: string): (r: Option<string>)
    ensures r.Some? ==> |r.value| > 0 && ';' !in r.value
  {
    Param(contentType, "boundary=", ';', false)
  }

  /** The field name of a `Content-Disposition` line (line 133). */
  function NameParam(line: string): (r: Option<string>)
    ensures r.Some? ==> |r.value| > 0 && '"' !in r.value
  {
    Param(line, "name=\"", '"', true)
  }

  const FormType := "multipart/form-data; "

  /** The header a browser sends for a form: its boundary is read back. */
  lemma BoundaryOfHeader(b: string)
    requires |b| > 0 && ';' !in b
    ensures BoundaryParam(FormType + "boundary=" + b) == Some(b)
  {
    var s := FormType + "boundary=" + b;
    var j := |FormType|;
    assert s[j..j + 9] == "boundary=";
    assert s[j + 9..] == b;
    assert RunUntil(b, ';') == b by {
      RunUntilStops(b, ';', "");
      assert b + [';'] + "" == b + [';'];
      RunUntilWhole(b, ';');
    }
    forall k | 0 <= k < j ensures !OccursAt(s, "boundary=", k) {
      assert s[k] == FormType[k];
    }
    ParamIsFirst(s, "boundary=", ';', false, j);
  }

  lemma {:induction false} RunUntilWhole(a: string, c: char)
    requires c !in a
    ensures RunUntil(a, c) == a
  {
    if |a| > 0 {
      RunUntilWhole(a[1..], c);
    }
  }

  // ---------------------------------------------------------------------------
  // One part
  // ---------------------------------------------------------------------------

  /** The first line at index `from` or later whose `strip()` is empty, that is, which is all whitespace. */
  function BlankLine(lines: seq<string>, from: nat): (r: Option<nat>)
    ensures r.Some? ==> from <= r.value < |lines| && AllSpace(lines[r.value])
    ensures r.Some? ==> forall i :: from <= i < r.value ==> !AllSpace(lines[i])
    ensures r.None? ==> forall i :: from <= i < |lines| ==> !AllSpace(lines[i])
    decreases |lines| - from
  {
    if from >= |lines| then None
    else if AllSpace(lines[from]) then Some(from)
    else BlankLine(lines, from + 1)
  }

  /**
   * Lines 126-147 for one piece between delimiters: skip blank pieces and the
   * closing `--`, split on CRLF, read the name from the second line and take
   * everything after the first blank line at `from` or later, stripped.
   * `from` is 0 in the code as written.
   */
  function ParsePart(part: string, from: nat): (r: Option<Field>)
    ensures r.Some? ==> !AllSpace(part) && Strip(part) != "--"
    ensures r.Some? ==> |r.value.name| > 0 && '"' !in r.value.name
    ensures r.Some? ==> Strip(r.value.value) == r.value.value
  {
    if Strip(part) == "" || Strip(part) == "--" then None
    else
      var lines := SplitOn(part, CRLF);
      if |lines| < 3 then None
      else match NameParam(lines[1])
        case None => None
        case Some(name) => Some(Field(name, PartValue(lines, from)))
  }

  /** The lines after the first blank one at `from` or later; none when there is no blank line. */
  function ValueLines(lines: seq<string>, from: nat): seq<string> {
    match BlankLine(lines, from) case Some(i) => lines[i + 1..] case None => []
  }

  /** Lines 140-146: the lines after the first blank one at `from` or later, joined and stripped. */
  function PartValue(lines: seq<string>, from: nat): (r: string)
    ensures Strip(r) == r
  {
    StripTwice(Join(CRLF, ValueLines(lines, from)));
    Strip(Join(CRLF, ValueLines(lines, from)))
  }

  lemma StripTwice(s: string)
    ensures Strip(Strip(s)) == Strip(s)
  {
    StripUnpadded(Strip(s));
  }

  /** A piece with a readable name on its second line is read as that name and its value. */
  lemma ReadPart(part: string, from: nat, name: string)
    requires !AllSpace(part) && Strip(part) != "--"
    requires |SplitOn(part, CRLF)| >= 3 && NameParam(SplitOn(part, CRLF)[1]) == Some(name)
    ensures ParsePart(part, from) == Some(Field(name, PartValue(SplitOn(part, CRLF), from)))
  {
  }

  /** Each piece read on its own. */
  function Parsed(parts: seq<string>, from: nat): (r: seq<Option<Field>>)
    ensures |r| == |parts|
    ensures forall i :: 0 <= i < |parts| ==> r[i] == ParsePart(parts[i], from)
  {
    if |parts| == 0 then [] else [ParsePart(parts[0], from)] + Parsed(parts[1..], from)
  }

  /** `form_data[field_name] = field_value` for every readable piece in order (lines 122-147). */
  function Collect(m: map<string, string>, fields: seq<Option<Field>>): map<string, string>
    decreases |fields|
  {
    if |fields| == 0 then m
    else match fields[0]
      case None => Collect(m, fields[1..])
      case Some(f) => Collect(m[f.name := f.value], fields[1..])
  }

  /** `parse_multipart_form_data` (lines 107-149), with the blank-line search starting at `from`. */
  function Parse(contentType: string, body: string, from: nat): (r: map<string, string>)
    ensures BoundaryParam(contentType).None? ==> r == map[]
  {
    match BoundaryParam(contentType)
    case None => map[]
    case Some(b) => Collect(map[], Parsed(SplitOn(body, "--" + b), from))
  }

  /**
   * The corrected reader: the blank-line search starts after the first line,
   * so a value is the text after its header. The endpoints read multipart
   * bodies through it; `Parse(…, 0)` is the code as written.
   */
  function Decode(contentType: string, body: string): map<string, string> {
    Parse(contentType, body, 1)
  }

  /**
   * `parse_form_data`: an empty body gives no fields, a multipart content type
   * goes to `Decode`, anything else to `parse_qs`, whose first value per key is
   * `urlencoded`.
   */
  function FormData(contentType: string, body: string, urlencoded: map<string, string>): (r: map<string, string>)
    ensures body == "" ==> r == map[]
    ensures body != "" && !Contains(contentType, "multipart/form-data") ==> r == urlencoded
    ensures body != "" && Contains(contentType, "multipart/form-data") ==> r == Decode(contentType, body)
  {
    if body == "" then map[]
    else if Contains(contentType, "multipart/form-data") then Decode(contentType, body)
    else urlencoded
  }

  // ---------------------------------------------------------------------------
  // Keys and the last-wins rule
  // ---------------------------------------------------------------------------

  /** The `i`-th piece was read as a field called `k`. */
  predicate Names(fields: seq<Option<Field>>, i: int, k: string) {
    0 <= i < |fields| && fields[i].Some? && fields[i].value.name == k
  }

  /** The decoded keys are the earlier ones plus the name of every readable piece. */
  lemma {:induction false} CollectKeys(m: map<string, string>, fields: seq<Option<Field>>, k: string)
    ensures k in Collect(m, fields) <==> k in m || exists i :: Names(fields, i, k)
    decreases |fields|
  {
    if |fields| > 0 {
      var m' := match fields[0] case None => m case Some(f) => m[f.name := f.value];
      CollectKeys(m', fields[1..], k);
      if fields[0].Some? && fields[0].value.name == k {
        assert Names(fields, 0, k);
      }
      if exists i :: Names(fields[1..], i, k) {
        var i :| Names(fields[1..], i, k);
        assert Names(fields, i + 1, k);
      }
      if exists i :: Names(fields, i, k) {
        var i :| Names(fields, i, k);
        if i > 0 {
          assert Names(fields[1..], i - 1, k);
        }
      }
    }
  }

  /** A key no piece names keeps the value it had. */
  lemma {:induction false} CollectKeeps(m: map<string, string>, fields: seq<Option<Field>>, k: string)
    requires k in m
    requires forall i :: !Names(fields, i, k)
    ensures k in Collect(m, fields) && Collect(m, fields)[k] == m[k]
    decreases |fields|
  {
    if |fields| > 0 {
      assert !Names(fields, 0, k);
      forall i ensures !Names(fields[1..], i, k) {
        if 0 <= i < |fields| - 1 {
          assert !Names(fields, i + 1, k);
        }
      }
      var m' := match fields[0] case None => m case Some(f) => m[f.name := f.value];
      CollectKeeps(m', fields[1..], k);
    }
  }

  /** When a name repeats, the last piece carrying it decides the value (line 147). */
  lemma {:induction false} CollectLastWins(m: map<string, string>, fields: seq<Option<Field>>, i: nat, f: Field)
    requires i < |fields| && fields[i] == Some(f)
    requires forall j :: i < j ==> !Names(fields, j, f.name)
    ensures f.name in Collect(m, fields) && Collect(m, fields)[f.name] == f.value
    decreases |fields|
  {
    var m' := match fields[0] case None => m case Some(g) => m[g.name := g.value];
    forall j | i - 1 < j ensures !Names(fields[1..], j, f.name) {
      if 0 <= j < |fields| - 1 {
        assert !Names(fields, j + 1, f.name);
      }
    }
    if i == 0 {
      CollectKeeps(m', fields[1..], f.name);
    } else {
      CollectLastWins(m', fields[1..], i - 1, f);
    }
  }

  // ---------------------------------------------------------------------------
  // The body a browser sends, and reading it back
  // ---------------------------------------------------------------------------

  const Disposition := "Content-Disposition: form-data; "

  /** The header line of a text field. */
  function Header(name: string): string {
    Disposition + "name=\"" + name + "\""
  }

  /** One text field as it sits between two delimiters. */
  function Render(f: Field): string {
    CRLF + Header(f.name) + CRLF + CRLF + f.value + CRLF
  }

  /**
   * Fields the reader can carry: a non-empty name without quote or carriage
   * return, and a value with no whitespace at either end (one that `strip()`
   * leaves alone).
   */
  predicate Sendable(f: Field) {
    |f.name| > 0 && '"' !in f.name && '\r' !in f.name && Unpadded(f.value)
  }

  predicate Unpadded(v: string) {
    |v| > 0 ==> !IsSpace(v[0]) && !IsSpace(v[|v| - 1])
  }

  /** Splitting at the first delimiter when the text before it has none. */
  lemma SplitAfter(x: string, sep: string, y: string)
    requires |sep| > 0
    requires forall j :: 0 <= j < |x| ==> !OccursAt(x + sep + y, sep, j)
    ensures SplitOn(x + sep + y, sep) == [x] + SplitOn(y, sep)
  {
    var s := x + sep + y;
    assert OccursAt(s, sep, |x|) by {
      assert s[|x|..|x| + |sep|] == sep;
    }
    var k := IndexOf(s, sep).value;
    assert k == |x|;
    assert s[..k] == x;
    assert s[k + |sep|..] == y;
  }

  /** The same with CRLF as the delimiter and no carriage return before it. */
  lemma SplitAfterLine(x: string, y: string)
    requires '\r' !in x
    ensures SplitOn(x + CRLF + y, CRLF) == [x] + SplitOn(y, CRLF)
  {
    var s := x + CRLF + y;
    forall j | 0 <= j < |x| ensures !OccursAt(s, CRLF, j) {
      assert s[j] == x[j];
    }
    SplitAfter(x, CRLF, y);
  }

  /** A text that starts with CRLF splits into an empty first line and the rest. */
  lemma SplitAtStart(y: string)
    ensures SplitOn(CRLF + y, CRLF) == [""] + SplitOn(y, CRLF)
  {
    SplitAfterLine("", y);
    assert "" + CRLF + y == CRLF + y;
  }

  /** The lines of `CRLF + h + CRLF + CRLF + v` when `h` has no carriage return. */
  lemma ThreeLines(h: string, v: string)
    requires '\r' !in h
    ensures SplitOn(CRLF + h + CRLF + CRLF + v, CRLF) == ["", h, ""] + SplitOn(v, CRLF)
  {
    var a := CRLF + v;
    var b := h + CRLF + a;
    SplitAtStart(v);
    SplitAfterLine(h, a);
    SplitAtStart(b);
    assert CRLF + h + CRLF + CRLF + v == CRLF + b;
  }

  lemma HeaderNoReturn(name: string)
    requires '\r' !in name
    ensures '\r' !in Header(name)
  {
    var h := Header(name);
    var p := Disposition + "name=\"";
    assert h == p + name + "\"";
    assert '\r' !in p;
  }

  /** The lines of a rendered field: empty, header, empty, then the value's lines. */
  lemma RenderLines(f: Field)
    requires Sendable(f)
    ensures SplitOn(Render(f), CRLF) == ["", Header(f.name), ""] + SplitOn(f.value + CRLF, CRLF)
  {
    HeaderNoReturn(f.name);
    ThreeLines(Header(f.name), f.value + CRLF);
    assert Render(f) == CRLF + Header(f.name) + CRLF + CRLF + (f.value + CRLF);
  }

  /** The header names the field it belongs to. */
  lemma HeaderName(name: string)
    requires |name| > 0 && '"' !in name
    ensures NameParam(Header(name)) == Some(name)
  {
    var key := "name=\"";
    var p := Disposition + key;
    var h := Header(name);
    var j := |Disposition|;
    assert h == p + name + "\"";
    assert h[j..j + 6] == key;
    assert h[j + 6..] == name + ['"'] + "";
    RunUntilStops(name, '"', "");
    var p5 := Disposition + "name=";
    assert '"' !in p5;
    forall k | 0 <= k < j ensures !OccursAt(h, key, k) {
      assert h[k + 5] == p5[k + 5];
      assert h[k..k + 6][5] == h[k + 5];
    }
    ParamIsFirst(h, key, '"', true, j);
  }

  /** A rendered field is neither blank nor the closing `--`. */
  lemma RenderNotBlank(f: Field)
    ensures !AllSpace(Render(f)) && Strip(Render(f)) != "--"
  {
    var p := Render(f);
    assert p[2] == 'C';
    assert LeadingSpaces(p) == 2 by {
      assert IsSpace(p[0]) && IsSpace(p[1]);
    }
    assert Strip(p)[0] == 'C';
  }

  lemma CRLFSpace()
    ensures AllSpace(CRLF)
  {
    forall i | 0 <= i < |CRLF| ensures IsSpace(CRLF[i]) {
      assert CRLF[i] == '\r' || CRLF[i] == '\n';
    }
  }

  lemma ValueLinesJoin(v: string)
    requires Unpadded(v)
    ensures Strip(Join(CRLF, SplitOn(v + CRLF, CRLF))) == v
  {
    JoinSplit(v + CRLF, CRLF);
    CRLFSpace();
    StripIgnoresTrailingSpace(v, CRLF);
    StripUnpadded(v);
  }

  /** How a rendered field is read, for either starting line of the blank-line search. */
  lemma ReadRendered(f: Field, from: nat)
    requires Sendable(f)
    ensures ParsePart(Render(f), from)
      == Some(Field(f.name, PartValue(["", Header(f.name), ""] + SplitOn(f.value + CRLF, CRLF), from)))
  {
    RenderLines(f);
    RenderNotBlank(f);
    HeaderName(f.name);
    ReadThreeLines(Render(f), from, f.name, Header(f.name), SplitOn(f.value + CRLF, CRLF));
  }

  lemma ReadThreeLines(part: string, from: nat, name: string, h: string, rest: seq<string>)
    requires !AllSpace(part) && Strip(part) != "--"
    requires SplitOn(part, CRLF) == ["", h, ""] + rest && NameParam(h) == Some(name)
    ensures ParsePart(part, from) == Some(Field(name, PartValue(["", h, ""] + rest, from)))
  {
    ReadLines(part, from, name, ["", h, ""] + rest);
  }

  /** `ReadPart` with the piece's lines already known. */
  lemma ReadLines(part: string, from: nat, name: string, lines: seq<string>)
    requires !AllSpace(part) && Strip(part) != "--"
    requires SplitOn(part, CRLF) == lines && |lines| >= 3 && NameParam(lines[1]) == Some(name)
    ensures ParsePart(part, from) == Some(Field(name, PartValue(lines, from)))
  {
    ReadPart(part, from, name);
  }

  /** The blank line found is the first one at `from` or later. */
  lemma {:induction false} BlankLineAt(lines: seq<string>, from: nat, i: nat)
    requires from <= i < |lines| && AllSpace(lines[i])
    requires forall k :: from <= k < i ==> !AllSpace(lines[k])
    ensures BlankLine(lines, from) == Some(i)
    decreases i - from
  {
    if from < i {
      BlankLineAt(lines, from + 1, i);
    }
  }

  /** The value once the blank line is known. */
  lemma PartValueAfter(lines: seq<string>, from: nat, i: nat)
    requires BlankLine(lines, from) == Some(i)
    ensures PartValue(lines, from) == Strip(Join(CRLF, lines[i + 1..]))
  {
    assert ValueLines(lines, from) == lines[i + 1..];
  }

  /** After an empty line, a header and a blank line, the search from line 1 yields the value. */
  lemma ValueAfterHeader(h: string, v: string)
    requires |h| > 0 && !IsSpace(h[0]) && Unpadded(v)
    ensures PartValue(["", h, ""] + SplitOn(v + CRLF, CRLF), 1) == v
  {
    var t := SplitOn(v + CRLF, CRLF);
    var lines := ["", h, ""] + t;
    assert lines[1] == h && lines[2] == "";
    BlankLineAt(lines, 1, 2);
    PartValueAfter(lines, 1, 2);
    assert lines[3..] == t;
    ValueLinesJoin(v);
  }

  /** The reader the endpoints use gives back every field a browser renders. */
  lemma PartRoundTrip(f: Field)
    requires Sendable(f)
    ensures ParsePart(Render(f), 1) == Some(f)
  {
    ReadRendered(f, 1);
    RenderedValue(f);
  }

  lemma RenderedValue(f: Field)
    requires Sendable(f)
    ensures PartValue(["", Header(f.name), ""] + SplitOn(f.value + CRLF, CRLF), 1) == f.value
  {
    assert Header(f.name)[0] == 'C';
    ValueAfterHeader(Header(f.name), f.value);
  }

  /** The value the reader as written returns for a rendered field: its header comes first. */
  function Polluted(f: Field): string {
    Header(f.name) + (if f.value == "" then "" else CRLF + CRLF + f.value)
  }

  /** Joining a first line onto at least one more. */
  lemma JoinCons(x: string, rest: seq<string>)
    requires |rest| > 0
    ensures Join(CRLF, [x] + rest) == x + CRLF + Join(CRLF, rest)
  {
    assert ([x] + rest)[1..] == rest;
  }

  lemma JoinHeaderLines(h: string, rest: seq<string>)
    requires |rest| > 0
    ensures Join(CRLF, [h, ""] + rest) == h + CRLF + CRLF + Join(CRLF, rest)
  {
    JoinCons("", rest);
    JoinCons(h, [""] + rest);
    Regroup(h, rest, Join(CRLF, rest));
  }

  /** The two regroupings `JoinHeaderLines` needs, apart from any `Join`. */
  lemma Regroup(h: string, rest: seq<string>, j: string)
    ensures [h, ""] + rest == [h] + ([""] + rest)
    ensures h + CRLF + ("" + CRLF + j) == h + CRLF + CRLF + j
  {
  }

  /** `strip()` of a header, a blank line and a value ending in CRLF. */
  lemma StripHeaderValue(h: string, v: string)
    requires |h| > 0 && Unpadded(h) && Unpadded(v)
    ensures Strip(h + CRLF + CRLF + v + CRLF) == h + (if v == "" then "" else CRLF + CRLF + v)
  {
    CRLFSpace();
    StripIgnoresTrailingSpace(h + CRLF + CRLF + v, CRLF);
    if v == "" {
      AllSpaceAppend(CRLF, CRLF);
      assert h + CRLF + CRLF + v == h + (CRLF + CRLF);
      StripIgnoresTrailingSpace(h, CRLF + CRLF);
      StripUnpadded(h);
    } else {
      var t := h + CRLF + CRLF + v;
      assert t[0] == h[0];
      assert t[|t| - 1] == v[|v| - 1];
      StripUnpadded(t);
      assert t == h + (CRLF + CRLF + v);
    }
  }

  /** Joining a header, a blank line and the value's lines, then stripping. */
  lemma PollutedJoin(h: string, v: string)
    requires |h| > 0 && Unpadded(h) && Unpadded(v)
    ensures Strip(Join(CRLF, [h, ""] + SplitOn(v + CRLF, CRLF))) == h + (if v == "" then "" else CRLF + CRLF + v)
  {
    var rest := SplitOn(v + CRLF, CRLF);
    JoinHeaderLines(h, rest);
    JoinSplit(v + CRLF, CRLF);
    assert h + CRLF + CRLF + (v + CRLF) == h + CRLF + CRLF + v + CRLF;
    StripHeaderValue(h, v);
  }

  lemma FirstLineBlank(h: string, t: seq<string>)
    ensures PartValue(["", h, ""] + t, 0) == Strip(Join(CRLF, [h, ""] + t))
  {
    EmptyFirstLine(["", h, ""] + t, [h, ""] + t);
  }

  /** With the search starting at line 0, an empty first line ends the headers at once. */
  lemma EmptyFirstLine(lines: seq<string>, rest: seq<string>)
    requires lines == [""] + rest
    ensures PartValue(lines, 0) == Strip(Join(CRLF, rest))
  {
    assert lines[1..] == rest;
    BlankLineAt(lines, 0, 0);
    PartValueAfter(lines, 0, 0);
  }

  /** The search from line 0 stops at the empty first line and keeps the header. */
  lemma ValueWithHeader(h: string, v: string)
    requires |h| > 0 && Unpadded(h) && Unpadded(v)
    ensures PartValue(["", h, ""] + SplitOn(v + CRLF, CRLF), 0) == h + (if v == "" then "" else CRLF + CRLF + v)
  {
    FirstLineBlank(h, SplitOn(v + CRLF, CRLF));
    PollutedJoin(h, v);
  }

  /** The reader as written returns the header line and the blank line in front of the value. */
  lemma AsWrittenKeepsHeader(f: Field)
    requires Sendable(f)
    ensures ParsePart(Render(f), 0) == Some(Field(f.name, Polluted(f)))
    ensures Polluted(f) != f.value
  {
    ReadRendered(f, 0);
    PollutedValue(f);
  }

  lemma PollutedValue(f: Field)
    requires Sendable(f)
    ensures PartValue(["", Header(f.name), ""] + SplitOn(f.value + CRLF, CRLF), 0) == Polluted(f)
    ensures Polluted(f) != f.value
  {
    var h := Header(f.name);
    assert h[0] == 'C' && h[|h| - 1] == '"';
    ValueWithHeader(h, f.value);
    assert |Polluted(f)| > |f.value|;
  }

  /**
   * One field, `title` = `Engineer`: the reader as written does not give it
   * back, the corrected one does.
   */
  lemma AsWrittenExample()
    ensures ParsePart(Render(Field("title", "Engineer")), 0) != Some(Field("title", "Engineer"))
    ensures ParsePart(Render(Field("title", "Engineer")), 1) == Some(Field("title", "Engineer"))
  {
    var f := Field("title", "Engineer");
    assert Sendable(f) by {
      assert f.name == ['t', 'i', 't', 'l', 'e'];
      assert f.value[0] == 'E' && f.value[|f.value| - 1] == 'r';
    }
    AsWrittenKeepsHeader(f);
    PartRoundTrip(f);
  }

  // ---------------------------------------------------------------------------
  // Whole bodies
  // ---------------------------------------------------------------------------

  /** The fields between delimiters `d`, each followed by the next delimiter. */
  function Chunks(d: string, fs: seq<Field>): string
    decreases |fs|
  {
    if |fs| == 0 then "" else Render(fs[0]) + d + Chunks(d, fs[1..])
  }

  /** A body with boundary `b`: a delimiter, the fields, and the closing `--` line. */
  function Encode(b: string, fs: seq<Field>): string {
    "--" + b + Chunks("--" + b, fs) + "--\r\n"
  }

  function Rendered(fs: seq<Field>): (r: seq<string>)
    ensures |r| == |fs| && forall i :: 0 <= i < |fs| ==> r[i] == Render(fs[i])
  {
    if |fs| == 0 then [] else [Render(fs[0])] + Rendered(fs[1..])
  }

  function AllSome(fs: seq<Field>): (r: seq<Option<Field>>)
    ensures |r| == |fs| && forall i :: 0 <= i < |fs| ==> r[i] == Some(fs[i])
  {
    if |fs| == 0 then [] else [Some(fs[0])] + AllSome(fs[1..])
  }

  /** The delimiter occurs in `x + d` only where it was appended. */
  predicate Delimited(x: string, d: string) {
    forall j :: 0 <= j < |x| ==> !OccursAt(x + d, d, j)
  }

  /** The closing line holds no delimiter that has no carriage return. */
  lemma ClosingLine(d: string)
    requires |d| >= 3 && '\r' !in d
    ensures SplitOn("--\r\n", d) == ["--\r\n"]
  {
    var s := "--\r\n";
    forall j ensures !OccursAt(s, d, j) {
      if 0 <= j && j + |d| <= |s| {
        assert s[j..j + |d|][2 - j] == s[2];
      }
    }
  }

  /** The delimiter found first in `x + d + y` is the one after `x`. */
  lemma DelimitedBefore(x: string, d: string, y: string)
    requires Delimited(x, d)
    ensures forall j :: 0 <= j < |x| ==> !OccursAt(x + d + y, d, j)
  {
    forall j | 0 <= j < |x| ensures !OccursAt(x + d + y, d, j) {
      assert !OccursAt(x + d, d, j);
      assert (x + d + y)[j..j + |d|] == (x + d)[j..j + |d|];
    }
  }

  lemma AppendClosing(p: string, c: string)
    ensures p + c + "--\r\n" == p + (c + "--\r\n")
  {
  }

  /** Splitting the fields and the closing line on the delimiter gives each back. */
  lemma {:induction false} SplitChunks(d: string, fs: seq<Field>)
    requires |d| >= 3 && '\r' !in d
    requires forall i :: 0 <= i < |fs| ==> Delimited(Render(fs[i]), d)
    ensures SplitOn(Chunks(d, fs) + "--\r\n", d) == Rendered(fs) + ["--\r\n"]
    decreases |fs|
  {
    if |fs| == 0 {
      assert Chunks(d, fs) + "--\r\n" == "--\r\n";
      ClosingLine(d);
    } else {
      var x := Render(fs[0]);
      var c := Chunks(d, fs[1..]);
      var y := c + "--\r\n";
      assert Chunks(d, fs) == x + d + c;
      AppendClosing(x + d, c);
      DelimitedBefore(x, d, y);
      SplitAfter(x, d, y);
      SplitChunks(d, fs[1..]);
      assert Rendered(fs) == [x] + Rendered(fs[1..]);
    }
  }

  /** Empty or `--` pieces are skipped. */
  lemma SkippedPieces()
    ensures ParsePart("", 1).None? && ParsePart("--\r\n", 1).None?
  {
    CRLFSpace();
    assert "--\r\n" == "--" + CRLF;
    StripIgnoresTrailingSpace("--", CRLF);
    StripUnpadded("--");
  }

  lemma {:induction false} CollectSkipsLast(m: map<string, string>, fields: seq<Option<Field>>)
    ensures Collect(m, fields + [None]) == Collect(m, fields)
    decreases |fields|
  {
    if |fields| == 0 {
      assert fields + [None] == [None];
    } else {
      assert (fields + [None])[1..] == fields[1..] + [None];
      var m' := match fields[0] case None => m case Some(f) => m[f.name := f.value];
      CollectSkipsLast(m', fields[1..]);
    }
  }

  /**
   * Fields a browser can send with boundary `b`: each is `Sendable`, and the
   * delimiter occurs in its rendering only where it is appended after it.
   */
  predicate Encodable(b: string, fs: seq<Field>)
    decreases |fs|
  {
    |fs| == 0 || (Sendable(fs[0]) && Delimited(Render(fs[0]), "--" + b) && Encodable(b, fs[1..]))
  }

  lemma {:induction false} EncodableEach(b: string, fs: seq<Field>)
    requires Encodable(b, fs)
    ensures forall i :: 0 <= i < |fs| ==> Sendable(fs[i]) && Delimited(Render(fs[i]), "--" + b)
    decreases |fs|
  {
    if |fs| > 0 {
      EncodableEach(b, fs[1..]);
      forall i | 0 < i < |fs| ensures Sendable(fs[i]) && Delimited(Render(fs[i]), "--" + b) {
        assert fs[i] == fs[1..][i - 1];
      }
    }
  }

  /**
   * A body built from fields a browser can send, whose boundary appears only as
   * delimiters, decodes to the fields themselves, a later field overriding an
   * earlier one of the same name.
   */
  lemma BodyRoundTrip(contentType: string, b: string, fs: seq<Field>)
    requires BoundaryParam(contentType) == Some(b) && '\r' !in b
    requires Encodable(b, fs)
    ensures Decode(contentType, Encode(b, fs)) == Collect(map[], AllSome(fs))
  {
    EncodableEach(b, fs);
    DecodeWith(contentType, b, Encode(b, fs));
    DecodedPieces(b, fs);
    CollectRead(fs);
  }

  /** The pieces of an encoded body read as: nothing, the fields in order, nothing. */
  lemma DecodedPieces(b: string, fs: seq<Field>)
    requires |b| > 0 && '\r' !in b
    requires forall i :: 0 <= i < |fs| ==> Sendable(fs[i]) && Delimited(Render(fs[i]), "--" + b)
    ensures Parsed(SplitOn(Encode(b, fs), "--" + b), 1) == [None] + AllSome(fs) + [None]
  {
    EncodePieces(b, fs);
    RenderedRead(fs);
    ReadPieces(Rendered(fs), fs);
  }

  lemma DecodeWith(contentType: string, b: string, body: string)
    requires BoundaryParam(contentType) == Some(b)
    ensures Decode(contentType, body) == Collect(map[], Parsed(SplitOn(body, "--" + b), 1))
  {
  }

  lemma CollectRead(fs: seq<Field>)
    ensures Collect(map[], [None] + AllSome(fs) + [None]) == Collect(map[], AllSome(fs))
  {
    assert ([None] + AllSome(fs) + [None])[1..] == AllSome(fs) + [None];
    CollectSkipsLast(map[], AllSome(fs));
  }

  lemma EncodeShape(d: string, c: string)
    ensures d + c + "--\r\n" == "" + d + (c + "--\r\n")
  {
  }

  lemma EncodePieces(b: string, fs: seq<Field>)
    requires |b| > 0 && '\r' !in b
    requires forall i :: 0 <= i < |fs| ==> Delimited(Render(fs[i]), "--" + b)
    ensures SplitOn(Encode(b, fs), "--" + b) == [""] + Rendered(fs) + ["--\r\n"]
  {
    var d := "--" + b;
    var c := Chunks(d, fs);
    var rest := c + "--\r\n";
    assert Encode(b, fs) == d + c + "--\r\n";
    EncodeShape(d, c);
    SplitAfter("", d, rest);
    assert '\r' !in d;
    SplitChunks(d, fs);
  }

  /** Each rendered field reads back as itself. */
  lemma RenderedRead(fs: seq<Field>)
    requires forall i :: 0 <= i < |fs| ==> Sendable(fs[i])
    ensures forall i :: 0 <= i < |fs| ==> ParsePart(Rendered(fs)[i], 1) == Some(fs[i])
  {
    forall i | 0 <= i < |fs| ensures ParsePart(Rendered(fs)[i], 1) == Some(fs[i]) {
      MiddlePiece(fs[i], Rendered(fs)[i]);
    }
  }

  lemma MiddlePiece(f: Field, p: string)
    requires Sendable(f) && p == Render(f)
    ensures ParsePart(p, 1) == Some(f)
  {
    PartRoundTrip(f);
  }

  /** Parsing pieces one by one commutes with putting them side by side. */
  lemma {:induction false} ParsedAppend(a: seq<string>, b: seq<string>, from: nat)
    ensures Parsed(a + b, from) == Parsed(a, from) + Parsed(b, from)
  {
    if |a| == 0 {
      assert a + b == b;
    } else {
      assert (a + b)[1..] == a[1..] + b;
      ParsedAppend(a[1..], b, from);
    }
  }

  /** Pieces that read as the fields, between an empty piece and the closing line. */
  lemma ReadPieces(rs: seq<string>, fs: seq<Field>)
    requires |rs| == |fs|
    requires forall i :: 0 <= i < |fs| ==> ParsePart(rs[i], 1) == Some(fs[i])
    ensures Parsed([""] + rs + ["--\r\n"], 1) == [None] + AllSome(fs) + [None]
  {
    SkippedPieces();
    assert Parsed(rs, 1) == AllSome(fs);
    ParsedAppend([""], rs, 1);
    ParsedAppend([""] + rs, ["--\r\n"], 1);
    assert Parsed([""], 1) == [None];
    assert Parsed(["--\r\n"], 1) == [None];
  }
}
