/** Injecting the runtime configuration into the meta tags of the console's entry document. */
module MetaTags {
  import opened Text

  // ---------- escaping ----------

  function EscapeChar(c: char): string {
    match c
    case '&' => "&amp;"
    case '"' => "&quot;"
    case '<' => "&lt;"
    case '>' => "&gt;"
    case '\'' => "&#x27;"
    case _ => [c]
  }

  function Escape(value: string): string {
    if value == "" then "" else EscapeChar(value[0]) + Escape(value[1..])
  }

  /** What a browser reads: the five references decoded, everything else as it stands. */
  function Unescape(text: string): string
    decreases |text|
  {
    if text == "" then ""
    else if "&amp;" <= text then "&" + Unescape(text[5..])
    else if "&quot;" <= text then "\"" + Unescape(text[6..])
    else if "&lt;" <= text then "<" + Unescape(text[4..])
    else if "&gt;" <= text then ">" + Unescape(text[4..])
    else if "&#x27;" <= text then "'" + Unescape(text[6..])
    else [text[0]] + Unescape(text[1..])
  }

  lemma EscapeSnoc(value: string, c: char)
    ensures Escape(value + [c]) == Escape(value) + EscapeChar(c)
  {
    hide EscapeChar;
    if value == "" {
      assert value + [c] == [c];
    } else {
      EscapeSnoc(value[1..], c);
      assert (value + [c])[1..] == value[1..] + [c];
      assert EscapeChar(value[0]) + (Escape(value[1..]) + EscapeChar(c)) == Escape(value) + EscapeChar(c);
    }
  }

  /** `escape_attribute`. */
  method EscapeAttribute(value: string) returns (out: string)
    ensures out == Escape(value)
  {
    out := "";
    for i := 0 to |value|
      invariant out == Escape(value[..i])
    {
      assert value[..i + 1] == value[..i] + [value[i]];
      EscapeSnoc(value[..i], value[i]);
      match value[i]
      case '&' => out := out + "&amp;";
      case '"' => out := out + "&quot;";
      case '<' => out := out + "&lt;";
      case '>' => out := out + "&gt;";
      case '\'' => out := out + "&#x27;";
      case other => out := out + [other];
    }
    assert value[..|value|] == value;
  }

  lemma UnescapeOne(c: char, rest: string)
    ensures Unescape(EscapeChar(c) + rest) == [c] + Unescape(rest)
  {
    var text := EscapeChar(c) + rest;
    assert text[|EscapeChar(c)|..] == rest;
    match c
    case '&' => assert "&amp;" <= text;
    case '"' => assert text[1] == 'q' && "&quot;" <= text;
    case '<' => assert text[1] == 'l' && "&lt;" <= text;
    case '>' => assert text[1] == 'g' && "&gt;" <= text;
    case '\'' => assert text[1] == '#' && "&#x27;" <= text;
    case _ => assert text[0] == c;
  }

  /** The escaped value reads back as the value, for every value. */
  lemma {:induction false} EscapeRoundTrips(value: string)
    ensures Unescape(Escape(value)) == value
  {
    if value != "" {
      UnescapeOne(value[0], Escape(value[1..]));
      EscapeRoundTrips(value[1..]);
    }
  }

  lemma EscapeInjective(a: string, b: string)
    requires Escape(a) == Escape(b)
    ensures a == b
  {
    EscapeRoundTrips(a);
    EscapeRoundTrips(b);
  }

  /** The escaped value holds no quote and no angle bracket. */
  lemma {:induction false} EscapeInert(value: string)
    ensures '"' !in Escape(value) && '<' !in Escape(value) && '>' !in Escape(value) && '\'' !in Escape(value)
  {
    if value != "" {
      EscapeInert(value[1..]);
      EscapeCharInert(value[0]);
      hide EscapeChar;
    }
  }

  lemma EscapeCharInert(c: char)
    ensures var e := EscapeChar(c); '"' !in e && '<' !in e && '>' !in e && '\'' !in e
  {
  }

  // ---------- where a tag's content stands ----------

  const CONTENT: string := "content=\""

  function Needle(name: string): string {
    "name=\"" + name + "\""
  }

  /** The name attribute's first occurrence, the end of its tag, and the content value [start, end) inside the tag. */
  datatype Place = Place(at: nat, tagEnd: nat, start: nat, end: nat)

  /** The first occurrence at or after an index. */
  ghost predicate IsFirst(html: string, p: string, from: nat, at: nat) {
    from <= at && OccursAt(html, p, at) && forall j :: from <= j < at ==> !OccursAt(html, p, j)
  }

  /** The first such character at or after an index. */
  predicate IsFirstChar(html: string, c: char, from: nat, at: nat) {
    from <= at < |html| && html[at] == c && forall j :: from <= j < at ==> html[j] != c
  }

  ghost predicate IsPlace(html: string, name: string, p: Place) {
    && IsFirst(html, Needle(name), 0, p.at)
    && IsFirstChar(html, '>', p.at, p.tagEnd)
    && p.at + |CONTENT| <= p.start <= p.end < p.tagEnd
    && IsFirst(html, CONTENT, p.at, p.start - |CONTENT|)
    && IsFirstChar(html, '"', p.start, p.end)
  }

  lemma PlaceUnique(html: string, name: string, p: Place, q: Place)
    requires IsPlace(html, name, p) && IsPlace(html, name, q)
    ensures p == q
  {
    hide OccursAt;
    assert p.at == q.at;
    assert p.tagEnd == q.tagEnd;
    assert p.start == q.start;
  }

  ghost function Locate(html: string, name: string): (r: Option<Place>)
    ensures r.Some? ==> IsPlace(html, name, r.value)
    ensures r.None? ==> forall p :: !IsPlace(html, name, p)
  {
    if p :| IsPlace(html, name, p) then Some(p) else None
  }

  lemma Located(html: string, name: string, p: Place)
    requires IsPlace(html, name, p)
    ensures Locate(html, name) == Some(p)
  {
    PlaceUnique(html, name, p, Locate(html, name).value);
  }

  function Splice(html: string, start: nat, end: nat, text: string): string
    requires start <= end <= |html|
  {
    html[..start] + text + html[end..]
  }

  /** The document with the tag's content replaced, or unchanged where there is no such content. */
  ghost function SetContent(html: string, name: string, text: string): string {
    var p := Locate(html, name);
    if p.None? then html else Splice(html, p.value.start, p.value.end, text)
  }

  /** What a browser reads as the tag's content. */
  ghost function Content(html: string, name: string): Option<string> {
    var p := Locate(html, name);
    if p.None? then None else Some(Unescape(html[p.value.start..p.value.end]))
  }

  lemma SliceOfSlice(s: string, from: nat, to: nat, i: nat, j: nat)
    requires from <= to <= |s| && i <= j <= to - from
    ensures s[from..to][i..j] == s[from + i..from + j]
  {
    var a, b := s[from..to][i..j], s[from + i..from + j];
    forall k | 0 <= k < j - i ensures a[k] == b[k] {
      assert a[k] == s[from..to][i + k] == s[from + i + k];
      assert b[k] == s[from + i + k];
    }
  }

  /** An index of a piece of the text is the same index of the text, moved. */
  lemma OccursInSlice(s: string, p: string, from: nat, to: nat, i: int)
    requires from <= to <= |s|
    ensures OccursAt(s[from..to], p, i) <==> 0 <= i && OccursAt(s, p, from + i) && from + i + |p| <= to
  {
    if 0 <= i && i + |p| <= to - from {
      SliceOfSlice(s, from, to, i, i + |p|);
    }
  }

  lemma OneChar(s: string, c: char, i: int)
    ensures OccursAt(s, [c], i) <==> 0 <= i < |s| && s[i] == c
  {
    if 0 <= i < |s| {
      assert s[i..i + 1] == [s[i]];
    }
  }

  /** The first character c of a slice, by search. */
  method FindChar(s: string, c: char, from: nat, to: nat) returns (r: Option<nat>)
    requires from <= to <= |s|
    ensures r.Some? ==> from <= r.value < to && s[r.value] == c && forall j :: from <= j < r.value ==> s[j] != c
    ensures r.None? ==> forall j :: from <= j < to ==> s[j] != c
  {
    var slice := s[from..to];
    var found := Find(slice, [c]);
    forall j ensures OccursAt(slice, [c], j) <==> 0 <= j < to - from && s[from + j] == c {
      OneChar(slice, c, j);
    }
    if found.None? {
      forall j | from <= j < to ensures s[j] != c {
        assert !OccursAt(slice, [c], j - from);
      }
      return None;
    }
    forall j | from <= j < from + found.value ensures s[j] != c {
      assert !OccursAt(slice, [c], j - from);
    }
    return Some(from + found.value);
  }

  /** The first occurrence of a pattern inside a slice, by search. */
  method FindText(s: string, p: string, from: nat, to: nat) returns (r: Option<nat>)
    requires from <= to <= |s|
    ensures r.Some? ==> from <= r.value <= r.value + |p| <= to && OccursAt(s, p, r.value)
                        && forall j :: from <= j < r.value ==> !OccursAt(s, p, j)
    ensures r.None? ==> forall j :: from <= j && j + |p| <= to ==> !OccursAt(s, p, j)
  {
    var found := Find(s[from..to], p);
    forall i ensures OccursAt(s[from..to], p, i) <==> 0 <= i && OccursAt(s, p, from + i) && from + i + |p| <= to {
      OccursInSlice(s, p, from, to, i);
    }
    if found.None? {
      forall j | from <= j && j + |p| <= to ensures !OccursAt(s, p, j) {
        assert !OccursAt(s[from..to], p, j - from);
      }
      return None;
    }
    forall j | from <= j < from + found.value ensures !OccursAt(s, p, j) {
      assert !OccursAt(s[from..to], p, j - from);
    }
    return Some(from + found.value);
  }

  lemma NoName(html: string, name: string)
    requires forall j :: 0 <= j && j + |Needle(name)| <= |html| ==> !OccursAt(html, Needle(name), j)
    ensures Locate(html, name) == None
  {
  }

  lemma NoTagEnd(html: string, name: string, at: nat)
    requires IsFirst(html, Needle(name), 0, at) && forall j :: at <= j < |html| ==> html[j] != '>'
    ensures Locate(html, name) == None
  {
    hide OccursAt;
    assert forall p :: IsPlace(html, name, p) ==> p.at == at;
  }

  lemma NoContent(html: string, name: string, at: nat, tagEnd: nat)
    requires IsFirst(html, Needle(name), 0, at) && IsFirstChar(html, '>', at, tagEnd)
    requires forall j :: at <= j && j + |CONTENT| <= tagEnd ==> !OccursAt(html, CONTENT, j)
    ensures Locate(html, name) == None
  {
    hide OccursAt;
    assert forall p :: IsPlace(html, name, p) ==> p.at == at && p.tagEnd == tagEnd;
  }

  lemma NoClose(html: string, name: string, at: nat, tagEnd: nat, start: nat)
    requires IsFirst(html, Needle(name), 0, at) && IsFirstChar(html, '>', at, tagEnd)
    requires start >= |CONTENT| && IsFirst(html, CONTENT, at, start - |CONTENT|)
    requires forall j :: start <= j < tagEnd ==> html[j] != '"'
    ensures Locate(html, name) == None
  {
    hide OccursAt;
    assert forall p :: IsPlace(html, name, p) ==> p.at == at && p.tagEnd == tagEnd && p.start == start;
  }

  /** `set_meta_content`. */
  method SetMetaContent(html: string, name: string, text: string) returns (out: string)
    ensures out == SetContent(html, name, text)
  {
    hide OccursAt;
    var nameAt := FindText(html, Needle(name), 0, |html|);
    if nameAt.None? {
      NoName(html, name);
      return html;
    }
    var at := nameAt.value;
    assert IsFirst(html, Needle(name), 0, at);
    var tagEnd := FindChar(html, '>', at, |html|);
    if tagEnd.None? {
      NoTagEnd(html, name, at);
      return html;
    }
    var content := FindText(html, CONTENT, at, tagEnd.value);
    if content.None? {
      NoContent(html, name, at, tagEnd.value);
      return html;
    }
    var start := content.value + |CONTENT|;
    var close := FindChar(html, '"', start, tagEnd.value);
    if close.None? {
      NoClose(html, name, at, tagEnd.value, start);
      return html;
    }
    Located(html, name, Place(at, tagEnd.value, start, close.value));
    out := html[..start] + text + html[close.value..];
  }

  // ---------- replacing one tag's content ----------

  /** A text that can stand in an attribute without ending it or its tag. */
  predicate Quiet(text: string) {
    '"' !in text && '>' !in text
  }

  /** No quote and no equals sign; two characters or more. */
  predicate PlainName(name: string) {
    |name| >= 2 && '"' !in name && '=' !in name
  }

  /** The quotes of an occurrence of the name attribute, and the text before the first. */
  lemma NeedleShape(html: string, name: string, j: int)
    requires OccursAt(html, Needle(name), j)
    ensures var n := |Needle(name)|;
            && n == |name| + 7 && j + n <= |html|
            && html[j + 5] == '"' && html[j + n - 1] == '"' && html[j + 3] == 'e' && html[j + 4] == '='
            && (forall k :: j <= k < j + 5 ==> html[k] != '"')
            && html[j + 6..j + n] == name + "\""
            && forall k :: j + 6 <= k < j + n - 1 ==> html[k] == name[k - j - 6]
  {
    var needle := Needle(name);
    assert forall k :: 0 <= k < |needle| ==> html[j + k] == needle[k] by {
      assert forall k :: 0 <= k < |needle| ==> html[j..j + |needle|][k] == needle[k];
    }
    assert needle == "name=\"" + (name + "\"");
    assert forall k :: 6 <= k < |needle| - 1 ==> needle[k] == name[k - 6];
    assert html[j + 6..j + |needle|] == needle[6..] == name + "\"";
    assert forall k :: j <= k < j + 5 ==> html[k] == needle[k - j];
    assert forall k :: j + 6 <= k < j + |needle| - 1 ==> html[k] == needle[k - j];
  }

  lemma ContentShape(html: string, j: int)
    requires OccursAt(html, CONTENT, j)
    ensures j + 9 <= |html| && html[j + 8] == '"' && html[j + 7] == '=' && html[j + 6] == 't' && html[j] == 'c'
    ensures forall k :: j <= k < j + 8 ==> html[k] != '"'
  {
    assert forall k :: 0 <= k < 9 ==> html[j + k] == CONTENT[k] by {
      assert forall k :: 0 <= k < 9 ==> html[j..j + 9][k] == CONTENT[k];
    }
    assert forall k :: j <= k < j + 8 ==> html[k] == CONTENT[k - j];
  }

  /** The content value starts after the name attribute has ended. */
  lemma ContentAfterName(html: string, name: string, p: Place)
    requires IsPlace(html, name, p) && PlainName(name)
    ensures p.at + |Needle(name)| <= p.start - |CONTENT|
  {
    var o := p.start - 9;
    NeedleShape(html, name, p.at);
    ContentShape(html, o);
  }

  /** Occurrences that end before the replaced part, or start after it, are the same before and after. */
  lemma SpliceOccurs(html: string, start: nat, end: nat, text: string, p: string, j: int)
    requires start <= end <= |html|
    ensures var out := Splice(html, start, end, text);
            && (j + |p| <= start ==> (OccursAt(out, p, j) <==> OccursAt(html, p, j)))
            && (end <= j ==> (OccursAt(out, p, j + start + |text| - end) <==> OccursAt(html, p, j)))
  {
    var out := Splice(html, start, end, text);
    var delta := start + |text| - end;
    if 0 <= j && j + |p| <= start {
      assert out[j..j + |p|] == html[j..j + |p|];
    }
    if end <= j && j + |p| <= |html| {
      assert out[j + delta..j + delta + |p|] == html[j..j + |p|];
    }
  }

  lemma SpliceChars(html: string, start: nat, end: nat, text: string)
    requires start <= end <= |html|
    ensures var out := Splice(html, start, end, text);
            var delta := start + |text| - end;
            && |out| == |html| + delta
            && (forall k :: 0 <= k < start ==> out[k] == html[k])
            && (forall k :: start <= k < start + |text| ==> out[k] in text)
            && (forall k :: start + |text| <= k < |out| ==> out[k] == html[k - delta])
            && (forall k :: end <= k < |html| ==> out[k + delta] == html[k])
            && out[start..start + |text|] == text
  {
  }

  /** Where the tag's content stands after its replacement. */
  function Resized(p: Place, text: string): Place
    requires p.end <= p.tagEnd
  {
    Place(p.at, p.tagEnd - p.end + p.start + |text|, p.start, p.start + |text|)
  }

  /** After a replacement by a quiet text the content of the tag is that text. */
  lemma OwnTag(html: string, name: string, p: Place, text: string)
    requires IsPlace(html, name, p) && PlainName(name) && Quiet(text)
    ensures IsPlace(Splice(html, p.start, p.end, text), name, Resized(p, text))
  {
    var out := Splice(html, p.start, p.end, text);
    ContentAfterName(html, name, p);
    FirstBefore(html, p.start, p.end, text, Needle(name), 0, p.at);
    FirstBefore(html, p.start, p.end, text, CONTENT, p.at, p.start - |CONTENT|);
    hide OccursAt, IsFirst, Needle;
    SpliceChars(html, p.start, p.end, text);
    FirstCharAcross(html, p.start, p.end, text, '>', p.at, p.tagEnd);
  }

  /** A first occurrence that ends before the replaced part stays the first. */
  lemma FirstBefore(html: string, start: nat, end: nat, text: string, p: string, from: nat, at: nat)
    requires start <= end <= |html| && IsFirst(html, p, from, at) && at + |p| <= start
    ensures IsFirst(Splice(html, start, end, text), p, from, at)
  {
    var out := Splice(html, start, end, text);
    forall j | 0 <= j <= at ensures OccursAt(out, p, j) <==> OccursAt(html, p, j) {
      SpliceOccurs(html, start, end, text, p, j);
    }
  }

  /** A first character past a replaced part that did not hold it, and does not now, moves with the text. */
  lemma FirstCharAcross(html: string, start: nat, end: nat, text: string, c: char, from: nat, at: nat)
    requires from <= start <= end <= at && IsFirstChar(html, c, from, at) && c !in text
    ensures IsFirstChar(Splice(html, start, end, text), c, from, at + start + |text| - end)
  {
    SpliceChars(html, start, end, text);
  }

  // ---------- the other tags ----------

  /** A quoted value between the content attribute's opening quote and its closing one. */
  ghost predicate IsValue(html: string, start: nat, end: nat) {
    start >= |CONTENT| && OccursAt(html, CONTENT, start - |CONTENT|) && IsFirstChar(html, '"', start, end)
  }

  /** What follows the closing quote does not finish a name attribute that the value could begin. */
  predicate Unjoined(html: string, end: nat, name: string) {
    !OccursAt(html, name + "\"", end + 1)
  }

  /** A name attribute never reaches into a value, nor out of one. */
  lemma NeedleAvoidsValue(html: string, start: nat, end: nat, name: string, j: int)
    requires IsValue(html, start, end) && Unjoined(html, end, name) && OccursAt(html, Needle(name), j) && PlainName(name)
    ensures j + |Needle(name)| <= start || end <= j
  {
    NeedleShape(html, name, j);
    ContentShape(html, start - |CONTENT|);
    assert end == j + 5 ==> OccursAt(html, name + "\"", end + 1);
  }

  /** Replacing a value leaves a value there, and leaves what follows it. */
  lemma SpliceValue(html: string, start: nat, end: nat, text: string, name: string)
    requires IsValue(html, start, end) && '"' !in text
    ensures IsValue(Splice(html, start, end, text), start, start + |text|)
    ensures Unjoined(Splice(html, start, end, text), start + |text|, name) <==> Unjoined(html, end, name)
  {
    SpliceChars(html, start, end, text);
    SpliceOccurs(html, start, end, text, CONTENT, start - |CONTENT|);
    SpliceOccurs(html, start, end, text, name + "\"", end + 1);
  }

  /** The first name attribute of another name stays the first: in place when before, moved when behind. */
  lemma OtherName(html: string, start: nat, end: nat, text: string, name: string, at: nat)
    requires IsValue(html, start, end) && '"' !in text && Unjoined(html, end, name) && PlainName(name)
    requires IsFirst(html, Needle(name), 0, at)
    ensures at + |Needle(name)| <= start || end <= at
    ensures IsFirst(Splice(html, start, end, text), Needle(name), 0, if end <= at then at + start + |text| - end else at)
  {
    var out := Splice(html, start, end, text);
    var delta := start + |text| - end;
    SpliceValue(html, start, end, text, name);
    NeedleAvoidsValue(html, start, end, name, at);
    SpliceOccurs(html, start, end, text, Needle(name), at);
    var moved := if end <= at then at + delta else at;
    forall j | 0 <= j < moved ensures !OccursAt(out, Needle(name), j) {
      if OccursAt(out, Needle(name), j) {
        NeedleAvoidsValue(out, start, start + |text|, name, j);
        SpliceOccurs(html, start, end, text, Needle(name), j);
        SpliceOccurs(html, start, end, text, Needle(name), j - delta);
      }
    }
  }

  /** Two places in different tags: one tag ends before the other's name begins. */
  lemma TagsApart(html: string, n: string, p: Place, m: string, q: Place)
    requires IsPlace(html, n, p) && IsPlace(html, m, q) && p.tagEnd != q.tagEnd
    ensures q.tagEnd < p.at || p.tagEnd < q.at
  {
    hide OccursAt;
  }

  function Moved(q: Place, delta: int): Place
    requires q.at + delta >= 0 && q.at <= q.start <= q.end && q.at <= q.tagEnd
  {
    Place(q.at + delta, q.tagEnd + delta, q.start + delta, q.end + delta)
  }

  /** Everything behind a replaced part moves with the text. */
  lemma BehindMoves(html: string, start: nat, end: nat, text: string, q: Place)
    requires start <= end <= q.at && q.at + |CONTENT| <= q.start <= q.end < q.tagEnd
    requires IsFirstChar(html, '>', q.at, q.tagEnd) && IsFirstChar(html, '"', q.start, q.end)
    requires IsFirst(html, CONTENT, q.at, q.start - |CONTENT|)
    ensures var out := Splice(html, start, end, text);
            var delta := start + |text| - end;
            && IsFirstChar(out, '>', q.at + delta, q.tagEnd + delta)
            && IsFirstChar(out, '"', q.start + delta, q.end + delta)
            && IsFirst(out, CONTENT, q.at + delta, q.start + delta - |CONTENT|)
  {
    hide IsFirst, Splice;
    FirstCharBehind(html, start, end, text, '>', q.at, q.tagEnd);
    FirstCharBehind(html, start, end, text, '"', q.start, q.end);
    FirstBehind(html, start, end, text, CONTENT, q.at, q.start - |CONTENT|);
  }

  lemma FirstCharBehind(html: string, start: nat, end: nat, text: string, c: char, from: nat, at: nat)
    requires start <= end <= from && IsFirstChar(html, c, from, at)
    ensures var delta := start + |text| - end; IsFirstChar(Splice(html, start, end, text), c, from + delta, at + delta)
  {
    SpliceChars(html, start, end, text);
    hide Splice;
  }

  lemma FirstBehind(html: string, start: nat, end: nat, text: string, p: string, from: nat, at: nat)
    requires start <= end <= from && end <= |html| && IsFirst(html, p, from, at)
    ensures var delta := start + |text| - end; IsFirst(Splice(html, start, end, text), p, from + delta, at + delta)
  {
    hide OccursAt, Splice;
    var out := Splice(html, start, end, text);
    var delta := start + |text| - end;
    SpliceOccurs(html, start, end, text, p, at);
    forall j | from + delta <= j < at + delta ensures !OccursAt(out, p, j) {
      SpliceOccurs(html, start, end, text, p, j - delta);
    }
  }

  /** Everything before a replaced part stays. */
  lemma BeforeStays(html: string, start: nat, end: nat, text: string, q: Place)
    requires q.tagEnd < start <= end <= |html| && q.at + |CONTENT| <= q.start <= q.end < q.tagEnd
    requires IsFirstChar(html, '>', q.at, q.tagEnd) && IsFirstChar(html, '"', q.start, q.end)
    requires IsFirst(html, CONTENT, q.at, q.start - |CONTENT|)
    ensures var out := Splice(html, start, end, text);
            && IsFirstChar(out, '>', q.at, q.tagEnd)
            && IsFirstChar(out, '"', q.start, q.end)
            && IsFirst(out, CONTENT, q.at, q.start - |CONTENT|)
  {
    FirstBefore(html, start, end, text, CONTENT, q.at, q.start - |CONTENT|);
    hide IsFirst;
    SpliceChars(html, start, end, text);
  }

  /** Where another tag's place is after a replacement at p. */
  function Shifted(q: Place, p: Place, text: string): Place
    requires p.start <= p.end && q.at <= q.start <= q.end && q.at <= q.tagEnd
  {
    if p.end <= q.at then Moved(q, p.start + |text| - p.end) else q
  }

  /** Another tag keeps its content when this one's is replaced. */
  lemma OtherTag(html: string, n: string, p: Place, m: string, q: Place, text: string)
    requires IsPlace(html, n, p) && IsPlace(html, m, q) && p.tagEnd != q.tagEnd
    requires Quiet(text) && Unjoined(html, p.end, m) && PlainName(m)
    ensures p.end <= q.at || q.tagEnd < p.start
    ensures IsPlace(Splice(html, p.start, p.end, text), m, Shifted(q, p, text))
  {
    hide OccursAt;
    TagsApart(html, n, p, m, q);
    assert IsValue(html, p.start, p.end);
    hide IsFirst, Needle, IsValue, Splice, Unjoined;
    OtherName(html, p.start, p.end, text, m, q.at);
    if p.end <= q.at {
      BehindMoves(html, p.start, p.end, text, q);
    } else {
      BeforeStays(html, p.start, p.end, text, q);
    }
  }

  // ---------- documents with every tag in place ----------

  predicate Names(names: seq<string>) {
    && (forall i :: 0 <= i < |names| ==> PlainName(names[i]))
    && (forall i, j :: 0 <= i < j < |names| ==> names[i] != names[j])
  }

  ghost predicate HasTag(html: string, name: string) {
    Locate(html, name).Some?
  }

  ghost function PlaceOf(html: string, name: string): Place
    requires HasTag(html, name)
  {
    Locate(html, name).value
  }

  /** The two names stand in different tags, and neither value can begin the other's name attribute. */
  ghost predicate Apart(html: string, n: string, m: string)
    requires HasTag(html, n) && HasTag(html, m)
  {
    PlacesApart(html, n, PlaceOf(html, n), m, PlaceOf(html, m))
  }

  /** Every name has its tag with a content value, in a tag of its own. */
  ghost predicate Ready(html: string, names: seq<string>) {
    && (forall i :: 0 <= i < |names| ==> HasTag(html, names[i]))
    && (forall i, j :: 0 <= i < |names| && 0 <= j < |names| && i != j ==> Apart(html, names[i], names[j]))
  }

  /** Replacing a tag's content: the content becomes the text, and nothing else in the document changes. */
  lemma SetOwn(html: string, n: string, text: string)
    requires HasTag(html, n) && PlainName(n) && Quiet(text)
    ensures var out := SetContent(html, n, text);
            && Locate(out, n) == Some(Resized(PlaceOf(html, n), text))
            && out == html[..PlaceOf(html, n).start] + text + html[PlaceOf(html, n).end..]
            && Content(out, n) == Some(Unescape(text))
  {
    var p := PlaceOf(html, n);
    OwnTag(html, n, p, text);
    hide IsPlace;
    Located(SetContent(html, n, text), n, Resized(p, text));
    SpliceChars(html, p.start, p.end, text);
  }

  /** Another tag, apart from this one, keeps its content. */
  lemma SetOther(html: string, n: string, m: string, text: string)
    requires HasTag(html, n) && HasTag(html, m) && Apart(html, n, m) && PlainName(m) && Quiet(text)
    ensures var out := SetContent(html, n, text);
            && Locate(out, m) == Some(Shifted(PlaceOf(html, m), PlaceOf(html, n), text))
            && Content(out, m) == Content(html, m)
  {
    var p, q := PlaceOf(html, n), PlaceOf(html, m);
    OtherTag(html, n, p, m, q, text);
    hide IsPlace;
    Located(SetContent(html, n, text), m, Shifted(q, p, text));
    ValueKept(html, p, q, text);
  }

  lemma ValueKept(html: string, p: Place, q: Place, text: string)
    requires p.start <= p.end <= |html| && q.at <= q.start <= q.end < q.tagEnd < |html|
    requires p.end <= q.at || q.tagEnd < p.start
    ensures var r := Shifted(q, p, text);
            var out := Splice(html, p.start, p.end, text);
            r.start <= r.end <= |out| && out[r.start..r.end] == html[q.start..q.end]
  {
    SpliceChars(html, p.start, p.end, text);
  }

  /** An occurrence of a quote-free text and a quote does not run past a quote. */
  lemma QuoteEnds(s: string, x: string, at: nat, quote: nat)
    requires '"' !in x && at <= quote < |s| && s[quote] == '"'
    ensures OccursAt(s, x + "\"", at) ==> at + |x| <= quote
  {
  }

  /** What follows another value's closing quote stays unjoined when a value is replaced. */
  lemma UnjoinedKept(html: string, start: nat, end: nat, text: string, other: nat, x: string)
    requires 0 < start <= end <= |html| && html[start - 1] == '"' && '"' !in x
    requires end <= other || other + 1 < start
    requires Unjoined(html, other, x)
    ensures Unjoined(Splice(html, start, end, text), if end <= other then other + start + |text| - end else other, x)
  {
    var out := Splice(html, start, end, text);
    SpliceOccurs(html, start, end, text, x + "\"", other + 1);
    if other + 1 < start {
      assert out[start - 1] == html[start - 1];
      hide Splice;
      QuoteEnds(out, x, other + 1, start - 1);
    }
  }

  /** Two places in different tags, neither value able to begin the other's name attribute. */
  ghost predicate PlacesApart(html: string, n: string, p: Place, m: string, q: Place) {
    p.tagEnd != q.tagEnd && Unjoined(html, p.end, m) && Unjoined(html, q.end, n)
  }

  /** One place before the other, as far as replacements in the one concern the other. */
  predicate Clear(html: string, p: Place, q: Place) {
    && 0 < p.start <= p.end < p.tagEnd < |html| && html[p.start - 1] == '"'
    && q.at + |CONTENT| <= q.start <= q.end < q.tagEnd < |html|
    && (p.tagEnd < q.at || q.tagEnd + |CONTENT| < p.start)
  }

  lemma ApartClear(html: string, n: string, p: Place, m: string, q: Place)
    requires IsPlace(html, n, p) && IsPlace(html, m, q) && p.tagEnd != q.tagEnd
    ensures Clear(html, p, q) && IsValue(html, p.start, p.end)
  {
    ContentShape(html, p.start - |CONTENT|);
    hide OccursAt;
    TagsApart(html, n, p, m, q);
  }

  lemma OwnStaysApart(html: string, n: string, p: Place, m: string, q: Place, text: string)
    requires Clear(html, p, q) && IsValue(html, p.start, p.end) && PlacesApart(html, n, p, m, q)
    requires PlainName(n) && Quiet(text)
    ensures PlacesApart(Splice(html, p.start, p.end, text), n, Resized(p, text), m, Shifted(q, p, text))
  {
    hide IsValue, Unjoined, Splice;
    SpliceValue(html, p.start, p.end, text, m);
    UnjoinedKept(html, p.start, p.end, text, q.end, n);
  }

  lemma OthersStayApart(html: string, p: Place, m: string, q: Place, x: string, r: Place, text: string)
    requires Clear(html, p, q) && Clear(html, p, r) && PlacesApart(html, m, q, x, r)
    requires q.tagEnd < r.at || r.tagEnd < q.at
    requires PlainName(m) && PlainName(x)
    ensures PlacesApart(Splice(html, p.start, p.end, text), m, Shifted(q, p, text), x, Shifted(r, p, text))
  {
    hide Unjoined, Splice;
    UnjoinedKept(html, p.start, p.end, text, q.end, x);
    UnjoinedKept(html, p.start, p.end, text, r.end, m);
  }

  /** The replacement leaves the replaced tag apart from another one. */
  lemma ApartFromOwn(html: string, n: string, m: string, text: string)
    requires HasTag(html, n) && HasTag(html, m) && Apart(html, n, m)
    requires PlainName(n) && PlainName(m) && Quiet(text)
    ensures var out := SetContent(html, n, text); HasTag(out, n) && HasTag(out, m) && Apart(out, n, m)
  {
    var p, q := PlaceOf(html, n), PlaceOf(html, m);
    SetOwn(html, n, text);
    SetOther(html, n, m, text);
    hide IsPlace, Splice, Clear, IsValue, Unjoined;
    ApartClear(html, n, p, m, q);
    OwnStaysApart(html, n, p, m, q, text);
  }

  /** The replacement leaves two other tags apart from each other. */
  lemma ApartFromOther(html: string, n: string, m: string, x: string, text: string)
    requires HasTag(html, n) && HasTag(html, m) && HasTag(html, x)
    requires Apart(html, n, m) && Apart(html, n, x) && Apart(html, m, x)
    requires PlainName(m) && PlainName(x) && Quiet(text)
    ensures var out := SetContent(html, n, text); HasTag(out, m) && HasTag(out, x) && Apart(out, m, x)
  {
    var p, q, r := PlaceOf(html, n), PlaceOf(html, m), PlaceOf(html, x);
    SetOther(html, n, m, text);
    SetOther(html, n, x, text);
    hide IsPlace, Splice, Clear, IsValue, Unjoined;
    ApartClear(html, n, p, m, q);
    ApartClear(html, n, p, x, r);
    TagsApart(html, m, q, x, r);
    OthersStayApart(html, p, m, q, x, r, text);
  }

  // ---------- laws of replacement ----------

  /** A second replacement replaces the first. */
  lemma SetTwice(html: string, n: string, v: string, w: string)
    requires HasTag(html, n) && PlainName(n) && Quiet(v)
    ensures SetContent(SetContent(html, n, v), n, w) == SetContent(html, n, w)
  {
    hide IsPlace, Splice, Content, Unescape;
    var p := PlaceOf(html, n);
    PlaceBounds(html, n);
    SetOwn(html, n, v);
    SpliceAgain(html, p.start, p.end, v, w);
  }

  lemma PlaceBounds(html: string, n: string)
    requires HasTag(html, n)
    ensures var p := PlaceOf(html, n); p.start <= p.end < p.tagEnd < |html|
  {
  }

  lemma SpliceAgain(html: string, start: nat, end: nat, v: string, w: string)
    requires start <= end <= |html|
    ensures |Splice(html, start, end, v)| == |html| + start + |v| - end
    ensures Splice(Splice(html, start, end, v), start, start + |v|, w) == Splice(html, start, end, w)
  {
    var out := Splice(html, start, end, v);
    assert out[..start] == html[..start] && out[start + |v|..] == html[end..];
  }

  lemma SpliceTwo(html: string, a: nat, b: nat, v: string, c: nat, d: nat, w: string)
    requires a <= b <= c <= d <= |html|
    ensures Splice(Splice(html, a, b, v), c + a + |v| - b, d + a + |v| - b, w)
            == Splice(Splice(html, c, d, w), a, b, v)
  {
    var one, two := Splice(html, a, b, v), Splice(html, c, d, w);
    var all := html[..a] + v + html[b..c] + w + html[d..];
    assert one[..c + a + |v| - b] == html[..a] + v + html[b..c];
    assert one[d + a + |v| - b..] == html[d..];
    assert two[..a] == html[..a];
    assert two[b..] == html[b..c] + w + html[d..];
    assert html[..a] + v + (html[b..c] + w + html[d..]) == all;
  }

  /** Replacements of two tags apart from each other come to the same in either order. */
  lemma SetsCommute(html: string, n: string, m: string, v: string, w: string)
    requires HasTag(html, n) && HasTag(html, m) && Apart(html, n, m)
    requires PlainName(n) && PlainName(m) && Quiet(v) && Quiet(w)
    ensures SetContent(SetContent(html, n, v), m, w) == SetContent(SetContent(html, m, w), n, v)
  {
    hide IsPlace, Splice, Content, Unescape, IsValue, Unjoined;
    var p, q := PlaceOf(html, n), PlaceOf(html, m);
    SetOther(html, n, m, v);
    ApartSymmetric(html, n, m);
    SetOther(html, m, n, w);
    ApartClear(html, n, p, m, q);
    ApartClear(html, m, q, n, p);
    if p.tagEnd < q.at {
      SpliceTwo(html, p.start, p.end, v, q.start, q.end, w);
    } else {
      SpliceTwo(html, q.start, q.end, w, p.start, p.end, v);
    }
  }

  lemma SetKeepsReady(html: string, names: seq<string>, i: nat, text: string)
    requires Ready(html, names) && Names(names) && i < |names| && Quiet(text)
    ensures Ready(SetContent(html, names[i], text), names)
  {
    hide PlainName, Quiet, SetContent, Apart, HasTag;
    var out := SetContent(html, names[i], text);
    SetOwn(html, names[i], text);
    forall j | 0 <= j < |names| ensures HasTag(out, names[j]) {
      if j != i {
        ApartFromOwn(html, names[i], names[j], text);
      } else {
        StillThere(html, names[i], text);
      }
    }
    forall j, k | 0 <= j < |names| && 0 <= k < |names| && j != k ensures Apart(out, names[j], names[k]) {
      if j == i {
        ApartFromOwn(html, names[i], names[k], text);
      } else if k == i {
        ApartFromOwn(html, names[i], names[j], text);
        ApartSymmetric(out, names[i], names[j]);
      } else {
        ApartFromOther(html, names[i], names[j], names[k], text);
      }
    }
  }

  lemma StillThere(html: string, n: string, text: string)
    requires HasTag(html, n) && PlainName(n) && Quiet(text)
    ensures HasTag(SetContent(html, n, text), n)
  {
    SetOwn(html, n, text);
  }

  lemma ApartSymmetric(html: string, n: string, m: string)
    requires HasTag(html, n) && HasTag(html, m) && Apart(html, n, m)
    ensures Apart(html, m, n)
  {
  }

  // ---------- injection ----------

  /** The first k names replaced, in order, by their escaped values. */
  ghost function Injected(html: string, names: seq<string>, values: seq<string>, k: nat): string
    requires k <= |names| == |values|
  {
    if k == 0 then html
    else SetContent(Injected(html, names, values, k - 1), names[k - 1], Escape(values[k - 1]))
  }

  lemma EscapeQuiet(value: string)
    ensures Quiet(Escape(value))
  {
    EscapeInert(value);
  }

  lemma {:induction false} InjectedReady(html: string, names: seq<string>, values: seq<string>, k: nat)
    requires k <= |names| == |values| && Names(names) && Ready(html, names)
    ensures Ready(Injected(html, names, values, k), names)
  {
    hide Names, Ready, Quiet, SetContent, Escape;
    if k > 0 {
      InjectedReady(html, names, values, k - 1);
      EscapeQuiet(values[k - 1]);
      SetKeepsReady(Injected(html, names, values, k - 1), names, k - 1, Escape(values[k - 1]));
    }
  }

  /** After injection every tag reads as its value; a tag not reached yet reads as before. */
  lemma {:induction false} InjectedReads(html: string, names: seq<string>, values: seq<string>, k: nat, i: nat)
    requires k <= |names| == |values| && i < |names| && Names(names) && Ready(html, names)
    ensures Content(Injected(html, names, values, k), names[i])
            == if i < k then Some(values[i]) else Content(html, names[i])
  {
    hide Content, SetContent, Names, Ready, Escape;
    if k > 0 {
      InjectedReady(html, names, values, k - 1);
      if i != k - 1 {
        InjectedReads(html, names, values, k - 1, i);
      }
      StepReads(Injected(html, names, values, k - 1), names, k - 1, values[k - 1], i);
    }
  }

  /** Replacing one tag by an escaped value: that tag reads as the value, every other as before. */
  lemma StepReads(html: string, names: seq<string>, k: nat, value: string, i: nat)
    requires k < |names| && i < |names| && Names(names) && Ready(html, names)
    ensures Content(SetContent(html, names[k], Escape(value)), names[i]) == if i == k then Some(value) else Content(html, names[i])
  {
    hide Content, SetContent, Quiet, Apart, HasTag, PlainName, Escape, Unescape;
    EscapeQuiet(value);
    if i == k {
      SetOwn(html, names[i], Escape(value));
      EscapeRoundTrips(value);
    } else {
      SetOther(html, names[k], names[i], Escape(value));
    }
  }

  /** A replacement made before an injection is made by it, or is left behind it. */
  lemma {:induction false} InjectedAbsorbs(html: string, names: seq<string>, values: seq<string>, k: nat, i: nat, text: string)
    requires k <= |names| == |values| && i < |names| && Names(names) && Ready(html, names) && Quiet(text)
    ensures Injected(SetContent(html, names[i], text), names, values, k)
            == if i < k then Injected(html, names, values, k) else SetContent(Injected(html, names, values, k), names[i], text)
  {
    hide Quiet, SetContent, Apart, HasTag, PlainName, Escape;
    if k > 0 {
      var before := Injected(html, names, values, k - 1);
      InjectedReady(html, names, values, k - 1);
      InjectedAbsorbs(html, names, values, k - 1, i, text);
      EscapeQuiet(values[k - 1]);
      if i == k - 1 {
        SetTwice(before, names[i], text, Escape(values[i]));
      } else if i >= k {
        SetsCommute(before, names[i], names[k - 1], text, Escape(values[k - 1]));
      }
    }
  }

  /** A second injection fully replaces the first. */
  lemma {:induction false} InjectedReplaces(html: string, names: seq<string>, first: seq<string>, second: seq<string>, k: nat)
    requires k <= |names| == |first| == |second| && Names(names) && Ready(html, names)
    ensures Injected(Injected(html, names, first, k), names, second, |names|) == Injected(html, names, second, |names|)
  {
    hide Names, Ready, Quiet, SetContent, Escape;
    if k > 0 {
      InjectedReplaces(html, names, first, second, k - 1);
      InjectedReady(html, names, first, k - 1);
      EscapeQuiet(first[k - 1]);
      InjectedAbsorbs(Injected(html, names, first, k - 1), names, second, |names|, k - 1, Escape(first[k - 1]));
    }
  }

  datatype RuntimeConfig = RuntimeConfig(adminIssuerPath: string, consoleClientId: string, managementAudience: string) {

    function Values(): seq<string> {
      [adminIssuerPath, consoleClientId, managementAudience]
    }
  }

  const NAMES: seq<string> := ["ironauth-admin-issuer", "ironauth-console-client-id", "ironauth-management-audience"]

  lemma NamesArePlain()
    ensures Names(NAMES)
    ensures forall i :: 0 <= i < |NAMES| ==> TagName(NAMES[i])
  {
    assert NAMES[0][9] == 'a' && NAMES[1][9] == 'c' && NAMES[2][9] == 'm';
    FirstNamePlain();
    SecondNamePlain();
    ThirdNamePlain();
    hide PlainName;
  }

  lemma FirstNamePlain()
    ensures TagName(NAMES[0])
  {
    PlainTagName(NAMES[0]);
  }

  lemma SecondNamePlain()
    ensures TagName(NAMES[1])
  {
    PlainTagName(NAMES[1]);
  }

  lemma ThirdNamePlain()
    ensures TagName(NAMES[2])
  {
    PlainTagName(NAMES[2]);
  }

  predicate PlainChar(c: char) {
    'a' <= c <= 'z' || c == '-'
  }

  /** A name of lower-case letters and hyphens is plain. */
  lemma PlainTagName(name: string)
    requires |name| >= 2 && forall i :: 0 <= i < |name| ==> PlainChar(name[i])
    ensures TagName(name)
  {
  }

  /** `inject_runtime_config`. */
  method InjectRuntimeConfig(html: string, config: RuntimeConfig) returns (out: string)
    ensures out == Injected(html, NAMES, config.Values(), 3)
    ensures Ready(html, NAMES) ==>
              && Content(out, "ironauth-admin-issuer") == Some(config.adminIssuerPath)
              && Content(out, "ironauth-console-client-id") == Some(config.consoleClientId)
              && Content(out, "ironauth-management-audience") == Some(config.managementAudience)
  {
    hide Content, SetContent, Ready;
    out := html;
    var values := config.Values();
    for k := 0 to 3
      invariant out == Injected(html, NAMES, values, k)
    {
      var escaped := EscapeAttribute(values[k]);
      out := SetMetaContent(out, NAMES[k], escaped);
    }
    if Ready(html, NAMES) {
      NamesArePlain();
      InjectedReads(html, NAMES, values, 3, 0);
      InjectedReads(html, NAMES, values, 3, 1);
      InjectedReads(html, NAMES, values, 3, 2);
    }
  }

  /** The three names replaced one after the other, in a given order. */
  ghost function InOrder(html: string, names: seq<string>, values: seq<string>, i: nat, j: nat, k: nat): string
    requires |names| == |values| == 3 && i < 3 && j < 3 && k < 3
  {
    SetContent(SetContent(SetContent(html, names[i], Escape(values[i])), names[j], Escape(values[j])), names[k], Escape(values[k]))
  }

  lemma SwapOrder(html: string, names: seq<string>, values: seq<string>, i: nat, j: nat, k: nat)
    requires |names| == |values| == 3 && i < 3 && j < 3 && k < 3 && i != j && i != k && j != k
    requires Names(names) && Ready(html, names)
    ensures InOrder(html, names, values, i, j, k) == InOrder(html, names, values, j, i, k)
    ensures InOrder(html, names, values, i, j, k) == InOrder(html, names, values, i, k, j)
  {
    hide Quiet, SetContent, Apart, HasTag, PlainName, Escape;
    EscapeQuiet(values[i]);
    EscapeQuiet(values[j]);
    EscapeQuiet(values[k]);
    SetsCommute(html, names[i], names[j], Escape(values[i]), Escape(values[j]));
    SetKeepsReady(html, names, i, Escape(values[i]));
    SetsCommute(SetContent(html, names[i], Escape(values[i])), names[j], names[k], Escape(values[j]), Escape(values[k]));
  }

  /** The order of the three replacements does not matter. */
  lemma OrderFree(html: string, values: seq<string>, i: nat, j: nat, k: nat)
    requires |values| == 3 && i < 3 && j < 3 && k < 3 && i != j && i != k && j != k && Ready(html, NAMES)
    ensures InOrder(html, NAMES, values, i, j, k) == Injected(html, NAMES, values, 3)
  {
    hide SetContent, Escape, Ready;
    NamesArePlain();
    hide Names;
    SwapOrder(html, NAMES, values, 0, 1, 2);
    SwapOrder(html, NAMES, values, 1, 0, 2);
    SwapOrder(html, NAMES, values, 0, 2, 1);
    SwapOrder(html, NAMES, values, 1, 2, 0);
    assert Injected(html, NAMES, values, 3) == SetContent(Injected(html, NAMES, values, 2), NAMES[2], Escape(values[2]));
    assert Injected(html, NAMES, values, 2) == SetContent(Injected(html, NAMES, values, 1), NAMES[1], Escape(values[1]));
    assert Injected(html, NAMES, values, 1) == SetContent(html, NAMES[0], Escape(values[0]));
  }

  // ---------- the shipped shape ----------

  function Tag(name: string, value: string): string {
    "<meta " + Needle(name) + " content=\"" + value + "\" />"
  }

  predicate Inert(text: string) {
    '"' !in text && '<' !in text && '>' !in text
  }

  predicate TagName(name: string) {
    PlainName(name) && Inert(name) && name[0] != ' '
  }

  /** The document carries the tag as shipped, and no earlier mention of its name attribute. */
  ghost predicate Carries(html: string, name: string, a: string, value: string, b: string) {
    html == a + Tag(name, value) + b && Inert(value) && !Contains(a, Needle(name))
  }

  function ShippedPlace(name: string, a: string, value: string): Place {
    var start := |a| + 6 + |Needle(name)| + 10;
    Place(|a| + 6, start + |value| + 3, start, start + |value|)
  }

  /** Where the shipped tag's characters stand. */
  lemma TagChars(name: string, value: string)
    ensures var t := Tag(name, value);
            var n := |Needle(name)|;
            && |t| == n + |value| + 20
            && t[..6] == "<meta " && t[6..6 + n] == Needle(name) && t[6 + n] == ' ' && t[7 + n..16 + n] == CONTENT
            && t[16 + n..16 + n + |value|] == value && t[16 + n + |value|..] == "\" />"
  {
  }

  lemma NeedleUnbordered(name: string)
    requires PlainName(name)
    ensures Unbordered(Needle(name))
  {
    var needle := Needle(name);
    forall k | 0 < k < |needle| ensures needle[..k] != needle[|needle| - k..] {
      assert needle[|needle| - k..][k - 1] == '"';
      assert k < 6 ==> needle[..k][k - 1] != '"';
      assert k > 6 ==> needle[..k][k - 1] == name[k - 7];
      assert k == 6 ==> needle[..k][4] == '=' && needle[|needle| - k..][4] == name[|name| - 1];
    }
  }

  /** The opening of the tag adds no earlier mention. */
  lemma MentionStandsBefore(a: string, name: string, i: int)
    requires OccursAt(a + "<meta ", Needle(name), i)
    ensures OccursAt(a, Needle(name), i)
  {
    var front := a + "<meta ";
    NeedleShape(front, name, i);
    var n := |Needle(name)|;
    assert i + n <= |a|;
    assert front[i..i + n] == a[i..i + n];
  }

  lemma ShippedName(a: string, name: string, rest: string)
    requires !Contains(a, Needle(name)) && PlainName(name)
    ensures IsFirst(a + "<meta " + Needle(name) + rest, Needle(name), 0, |a| + 6)
  {
    forall i ensures !OccursAt(a + "<meta ", Needle(name), i) {
      if OccursAt(a + "<meta ", Needle(name), i) {
        MentionStandsBefore(a, name, i);
      }
    }
    NeedleUnbordered(name);
    FindAfter(a + "<meta ", Needle(name), rest);
  }

  /** Between the name attribute and the content attribute of a shipped tag there is one space. */
  lemma ShippedContent(html: string, name: string, at: nat)
    requires OccursAt(html, Needle(name), at) && PlainName(name)
    requires at + |Needle(name)| < |html| && html[at + |Needle(name)|] == ' '
    requires OccursAt(html, CONTENT, at + |Needle(name)| + 1)
    ensures IsFirst(html, CONTENT, at, at + |Needle(name)| + 1)
  {
    NeedleShape(html, name, at);
    forall j | at <= j <= at + |Needle(name)| ensures !OccursAt(html, CONTENT, j) {
      if OccursAt(html, CONTENT, j) {
        ContentShape(html, j);
      }
    }
  }

  /** A shipped tag is found where it was put, and what follows its value begins no name attribute. */
  lemma ShippedPlaced(html: string, name: string, a: string, value: string, b: string)
    requires Carries(html, name, a, value, b) && TagName(name)
    ensures IsPlace(html, name, ShippedPlace(name, a, value))
    ensures forall m :: TagName(m) ==> Unjoined(html, ShippedPlace(name, a, value).end, m)
  {
    var p := ShippedPlace(name, a, value);
    ShippedFirst(html, name, a, value, b);
    ShippedChars(html, name, a, value, b);
    hide Carries, Inert, IsFirst, Needle;
    ShippedContent(html, name, p.at);
    forall m | TagName(m) ensures Unjoined(html, p.end, m) {
      OtherStart(html, m + "\"", p.end + 1);
    }
  }

  lemma ShippedFirst(html: string, name: string, a: string, value: string, b: string)
    requires Carries(html, name, a, value, b) && TagName(name)
    ensures IsFirst(html, Needle(name), 0, |a| + 6)
  {
    var rest := " content=\"" + value + "\" />" + b;
    assert html == a + "<meta " + Needle(name) + rest;
    ShippedName(a, name, rest);
  }

  lemma OtherStart(s: string, p: string, i: nat)
    requires i < |s| && |p| > 0 && s[i] != p[0]
    ensures !OccursAt(s, p, i)
  {
    assert i + |p| <= |s| ==> s[i..i + |p|][0] == s[i];
  }

  /** What stands after the name attribute of a shipped tag. */
  lemma ShippedChars(html: string, name: string, a: string, value: string, b: string)
    requires Carries(html, name, a, value, b) && TagName(name)
    ensures var p := ShippedPlace(name, a, value);
            var n := |Needle(name)|;
            && p.tagEnd < |html|
            && html[p.at + n] == ' ' && OccursAt(html, CONTENT, p.at + n + 1)
            && IsFirstChar(html, '>', p.at, p.tagEnd) && IsFirstChar(html, '"', p.start, p.end)
            && html[p.end + 1] == ' '
  {
    var p := ShippedPlace(name, a, value);
    var t := Tag(name, value);
    var n := |Needle(name)|;
    TagChars(name, value);
    TagMarks(name, value);
    TagInText(html, a, t, b);
    hide Carries, Tag, Needle, Inert;
    assert html[|a| + (6 + n)] == t[6 + n];
    assert html[|a| + (7 + n)..|a| + (16 + n)] == t[7 + n..16 + n];
    assert html[|a| + (16 + n + |value|)] == t[16 + n + |value|];
    assert html[|a| + (17 + n + |value|)] == t[17 + n + |value|];
    assert html[|a| + (|t| - 1)] == t[|t| - 1];
    forall j | p.at <= j < p.tagEnd ensures html[j] != '>' {
      assert html[|a| + (j - |a|)] == t[j - |a|];
    }
    forall j | p.start <= j < p.end ensures html[j] != '"' {
      assert html[|a| + (j - |a|)] == t[j - |a|];
    }
  }

  lemma TagInText(html: string, a: string, t: string, b: string)
    requires html == a + t + b
    ensures forall k :: 0 <= k < |t| ==> html[|a| + k] == t[k]
    ensures forall i, j :: 0 <= i <= j <= |t| ==> html[|a| + i..|a| + j] == t[i..j]
  {
    forall i, j | 0 <= i <= j <= |t| ensures html[|a| + i..|a| + j] == t[i..j] {
      assert html[|a|..|a| + |t|] == t;
      SliceOfSlice(html, |a|, |a| + |t|, i, j);
    }
  }

  /** The angle brackets of a shipped tag are its ends, and its value holds no quote. */
  lemma TagMarks(name: string, value: string)
    requires Inert(name) && Inert(value)
    ensures var t := Tag(name, value);
            var n := |Needle(name)|;
            && |t| == n + |value| + 20
            && t[0] == '<' && (forall k :: 0 < k < |t| ==> t[k] != '<')
            && t[|t| - 1] == '>' && (forall k :: 0 <= k < |t| - 1 ==> t[k] != '>')
            && (forall k :: 16 + n <= k < 16 + n + |value| ==> t[k] != '"')
            && t[16 + n + |value|] == '"' && t[17 + n + |value|] == ' '
  {
    var head := "<meta name=\"";
    assert Tag(name, value) == head + name + "\" content=\"" + value + "\" />";
  }

  /** Tags that end at the same place begin at the same place, and then they are the same tag. */
  lemma ShippedApart(html: string, n: string, a: string, v: string, b: string, m: string, c: string, w: string, d: string)
    requires Carries(html, n, a, v, b) && Carries(html, m, c, w, d) && TagName(n) && TagName(m) && n != m
    ensures |a| + |Tag(n, v)| != |c| + |Tag(m, w)|
  {
    TagOpens(html, n, a, v, b);
    TagOpens(html, m, c, w, d);
    hide Carries, Tag, TagName;
    if |a| + |Tag(n, v)| == |c| + |Tag(m, w)| {
      assert |a| == |c|;
      TagsEqual(n, v, m, w);
    }
  }

  /** A stretch whose only opening bracket is its first character, ending at a given place. */
  ghost predicate Opens(html: string, from: nat, to: nat) {
    from < to <= |html| && html[from] == '<' && forall k :: from < k < to ==> html[k] != '<'
  }

  lemma TagOpens(html: string, name: string, a: string, value: string, b: string)
    requires Carries(html, name, a, value, b) && TagName(name)
    ensures Opens(html, |a|, |a| + |Tag(name, value)|)
    ensures html[|a|..|a| + |Tag(name, value)|] == Tag(name, value)
  {
    TagMarks(name, value);
    var t := Tag(name, value);
    TagInText(html, a, t, b);
    assert html[|a| + 0] == t[0];
    forall k | |a| < k < |a| + |t| ensures html[k] != '<' {
      assert html[|a| + (k - |a|)] == t[k - |a|];
    }
    assert html[|a| + 0..|a| + |t|] == t[0..|t|];
  }

  /** A tag's text tells its name. */
  lemma TagsEqual(n: string, v: string, m: string, w: string)
    requires Tag(n, v) == Tag(m, w) && TagName(n) && TagName(m)
    ensures n == m
  {
    hide Carries;
    TagFromName(n, v);
    TagFromName(m, w);
    var s := Tag(n, v)[12..];
    assert s == Tag(m, w)[12..];
    assert |n| == |m|;
  }

  lemma TagFromName(n: string, v: string)
    requires '"' !in n
    ensures |Tag(n, v)| > 12 + |n|
    ensures var s := Tag(n, v)[12..];
            s[..|n|] == n && s[|n|] == '"' && forall k :: 0 <= k < |n| ==> s[k] != '"'
  {
    var rest := "\" content=\"" + v + "\" />";
    assert Tag(n, v) == "<meta name=\"" + (n + rest);
    assert Tag(n, v)[12..] == n + rest;
  }

  /** A document that carries every tag once in the shipped shape is ready for injection. */
  lemma ShippedIsReady(html: string, names: seq<string>)
    requires Names(names)
    requires forall i :: 0 <= i < |names| ==> TagName(names[i]) && exists a, v, b :: Carries(html, names[i], a, v, b)
    ensures Ready(html, names)
  {
    forall i | 0 <= i < |names| ensures HasTag(html, names[i]) {
      var a, v, b :| Carries(html, names[i], a, v, b);
      ShippedPlaced(html, names[i], a, v, b);
    }
    forall i, j | 0 <= i < |names| && 0 <= j < |names| && i != j ensures Apart(html, names[i], names[j]) {
      ShippedPair(html, names[i], names[j]);
    }
  }

  lemma ShippedPair(html: string, n: string, m: string)
    requires TagName(n) && TagName(m) && n != m
    requires exists a, v, b :: Carries(html, n, a, v, b)
    requires exists a, v, b :: Carries(html, m, a, v, b)
    ensures HasTag(html, n) && HasTag(html, m) && Apart(html, n, m)
  {
    var a, v, b :| Carries(html, n, a, v, b);
    var c, w, d :| Carries(html, m, c, w, d);
    ShippedPlaced(html, n, a, v, b);
    ShippedPlaced(html, m, c, w, d);
    ShippedApart(html, n, a, v, b, m, c, w, d);
    TagMarks(n, v);
    TagMarks(m, w);
    hide IsPlace, Carries, Unjoined, Tag;
    Located(html, n, ShippedPlace(n, a, v));
    Located(html, m, ShippedPlace(m, c, w));
  }

  /**
   * On a document that carries the three tags once in the shipped shape: every tag then reads as its value, and a
   * second injection leaves exactly what it alone would have made of the first document.
   */
  lemma InjectionOnShipped(html: string, first: RuntimeConfig, second: RuntimeConfig)
    requires forall i :: 0 <= i < 3 ==> exists a, v, b :: Carries(html, NAMES[i], a, v, b)
    ensures Ready(html, NAMES)
    ensures forall i :: 0 <= i < 3 ==> Content(Injected(html, NAMES, first.Values(), 3), NAMES[i]) == Some(first.Values()[i])
    ensures Injected(Injected(html, NAMES, first.Values(), 3), NAMES, second.Values(), 3)
            == Injected(html, NAMES, second.Values(), 3)
  {
    hide Ready, Names, Carries, Content, SetContent, TagName;
    NamesArePlain();
    assert |NAMES| == 3;
    ShippedIsReady(html, NAMES);
    forall i | 0 <= i < 3 ensures Content(Injected(html, NAMES, first.Values(), 3), NAMES[i]) == Some(first.Values()[i]) {
      InjectedReads(html, NAMES, first.Values(), 3, i);
    }
    InjectedReplaces(html, NAMES, first.Values(), second.Values(), 3);
  }

  // ---------- the whole document after injection ----------

  /** Replacing the content of a shipped tag changes that tag and nothing around it. */
  lemma ReplacesTag(html: string, n: string, a: string, v: string, b: string, text: string)
    requires Carries(html, n, a, v, b) && TagName(n)
    ensures SetContent(html, n, text) == a + Tag(n, text) + b
  {
    ShippedPlaced(html, n, a, v, b);
    var p := ShippedPlace(n, a, v);
    hide IsPlace, Unjoined;
    Located(html, n, p);
    TagAround(html, n, a, v, b, text);
  }

  lemma TagAround(html: string, n: string, a: string, v: string, b: string, text: string)
    requires html == a + Tag(n, v) + b
    ensures var p := ShippedPlace(n, a, v);
            p.end <= |html| && Splice(html, p.start, p.end, text) == a + Tag(n, text) + b
  {
    var head := "<meta " + Needle(n) + " content=\"";
    var p := ShippedPlace(n, a, v);
    assert Tag(n, v) == head + v + "\" />" && Tag(n, text) == head + text + "\" />";
    assert html == (a + head) + v + ("\" />" + b);
    assert p.start == |a + head| && p.end == |a + head| + |v|;
    assert html[..p.start] == a + head && html[p.end..] == "\" />" + b;
    hide Tag;
    assert (a + head) + text + ("\" />" + b) == a + (head + text + "\" />") + b;
  }

  /** Four pieces of text around three shipped tags. */
  function Page(pieces: seq<string>, names: seq<string>, contents: seq<string>): string
    requires |pieces| == 4 && |names| == |contents| == 3
  {
    Ahead(pieces, names, contents, 2) + Tag(names[2], contents[2]) + pieces[3]
  }

  /** What stands ahead of the m-th tag. */
  function Ahead(pieces: seq<string>, names: seq<string>, contents: seq<string>, m: nat): string
    requires |pieces| == 4 && |names| == |contents| == 3 && m < 3
  {
    if m == 0 then pieces[0] else Ahead(pieces, names, contents, m - 1) + Tag(names[m - 1], contents[m - 1]) + pieces[m]
  }

  /** What stands behind the m-th tag. */
  function Behind(pieces: seq<string>, names: seq<string>, contents: seq<string>, m: nat): string
    requires |pieces| == 4 && |names| == |contents| == 3 && m < 3
    decreases 3 - m
  {
    if m == 2 then pieces[3] else pieces[m + 1] + Tag(names[m + 1], contents[m + 1]) + Behind(pieces, names, contents, m + 1)
  }

  lemma PageAround(pieces: seq<string>, names: seq<string>, contents: seq<string>, m: nat)
    requires |pieces| == 4 && |names| == |contents| == 3 && m < 3
    ensures Page(pieces, names, contents)
            == Ahead(pieces, names, contents, m) + Tag(names[m], contents[m]) + Behind(pieces, names, contents, m)
    decreases 3 - m
  {
    hide Tag;
    if m < 2 {
      PageAround(pieces, names, contents, m + 1);
      var a, t, u := Ahead(pieces, names, contents, m), Tag(names[m], contents[m]), Tag(names[m + 1], contents[m + 1]);
      var b := Behind(pieces, names, contents, m + 1);
      Regroup(a, t, pieces[m + 1], u, b);
    }
  }

  lemma Regroup(a: string, t: string, p: string, u: string, b: string)
    ensures (a + t + p) + u + b == a + t + (p + u + b)
  {
  }

  /** The page, written out. */
  lemma PageSpelled(pieces: seq<string>, names: seq<string>, contents: seq<string>)
    requires |pieces| == 4 && |names| == |contents| == 3
    ensures Page(pieces, names, contents)
            == pieces[0] + Tag(names[0], contents[0]) + pieces[1] + Tag(names[1], contents[1]) + pieces[2]
               + Tag(names[2], contents[2]) + pieces[3]
  {
    hide Tag;
    assert Ahead(pieces, names, contents, 1) == pieces[0] + Tag(names[0], contents[0]) + pieces[1];
  }

  /** The page holds its three tags in the shipped shape, none of them mentioned earlier. */
  ghost predicate ShippedPage(pieces: seq<string>, names: seq<string>, contents: seq<string>)
    requires |pieces| == 4 && |names| == |contents| == 3
  {
    forall m :: 0 <= m < 3 ==> Inert(contents[m]) && !Contains(Ahead(pieces, names, contents, m), Needle(names[m]))
  }

  /** Replacing the content of a tag whose followers are done already gives the page with that content. */
  lemma ReplacesOnPage(pieces: seq<string>, names: seq<string>, before: seq<string>, now: seq<string>, m: nat, text: string)
    requires |pieces| == 4 && |names| == |before| == |now| == 3 && m < 3 && TagName(names[m])
    requires Inert(before[m]) && !Contains(Ahead(pieces, names, before, m), Needle(names[m]))
    requires forall k :: 0 <= k <= m ==> now[k] == before[k]
    ensures SetContent(Page(pieces, names, now), names[m], text) == Page(pieces, names, now[m := text])
  {
    hide Page, Ahead, Behind, Tag, Contains, Needle, Inert, TagName, SetContent;
    var next := now[m := text];
    var a, b := Ahead(pieces, names, now, m), Behind(pieces, names, now, m);
    AheadSame(pieces, names, before, now, m);
    AheadSame(pieces, names, now, next, m);
    BehindSame(pieces, names, now, next, m);
    PageAround(pieces, names, now, m);
    PageAround(pieces, names, next, m);
    ReplacesTag(Page(pieces, names, now), names[m], a, now[m], b, text);
  }

  lemma {:induction false} AheadSame(pieces: seq<string>, names: seq<string>, x: seq<string>, y: seq<string>, m: nat)
    requires |pieces| == 4 && |names| == |x| == |y| == 3 && m < 3 && forall k :: 0 <= k < m ==> x[k] == y[k]
    ensures Ahead(pieces, names, x, m) == Ahead(pieces, names, y, m)
  {
    if m > 0 {
      AheadSame(pieces, names, x, y, m - 1);
    }
  }

  lemma {:induction false} BehindSame(pieces: seq<string>, names: seq<string>, x: seq<string>, y: seq<string>, m: nat)
    requires |pieces| == 4 && |names| == |x| == |y| == 3 && m < 3 && forall k :: m < k < 3 ==> x[k] == y[k]
    ensures Behind(pieces, names, x, m) == Behind(pieces, names, y, m)
    decreases 3 - m
  {
    if m < 2 {
      BehindSame(pieces, names, x, y, m + 1);
    }
  }

  /**
   * A page of any text around the three shipped tags, in any order of the tags, becomes the same text around the same
   * tags with the escaped values in them: no other character changes.
   */
  lemma InjectedPage(pieces: seq<string>, contents: seq<string>, config: RuntimeConfig, i: nat, j: nat, k: nat)
    requires |pieces| == 4 && |contents| == 3 && i < 3 && j < 3 && k < 3 && i != j && i != k && j != k
    requires ShippedPage(pieces, [NAMES[i], NAMES[j], NAMES[k]], contents)
    ensures var names, values := [NAMES[i], NAMES[j], NAMES[k]], config.Values();
            Injected(Page(pieces, names, contents), NAMES, values, 3)
            == Page(pieces, names, [Escape(values[i]), Escape(values[j]), Escape(values[k])])
  {
    hide Ready, Names, TagName, Page, SetContent, Injected, Escape, Ahead, Inert, Contains, Needle;
    var names, values := [NAMES[i], NAMES[j], NAMES[k]], config.Values();
    var html := Page(pieces, names, contents);
    NamesArePlain();
    PageIsReady(pieces, contents, i, j, k);
    OrderFree(html, values, k, j, i);
    var x, y, z := Escape(values[i]), Escape(values[j]), Escape(values[k]);
    var first := contents[2 := z];
    var second := first[1 := y];
    ReplacesOnPage(pieces, names, contents, contents, 2, z);
    ReplacesOnPage(pieces, names, contents, first, 1, y);
    ReplacesOnPage(pieces, names, contents, second, 0, x);
    assert second[0 := x] == [x, y, z];
  }

  lemma PageIsReady(pieces: seq<string>, contents: seq<string>, i: nat, j: nat, k: nat)
    requires |pieces| == 4 && |contents| == 3 && i < 3 && j < 3 && k < 3 && i != j && i != k && j != k
    requires ShippedPage(pieces, [NAMES[i], NAMES[j], NAMES[k]], contents)
    ensures Ready(Page(pieces, [NAMES[i], NAMES[j], NAMES[k]], contents), NAMES)
  {
    var names := [NAMES[i], NAMES[j], NAMES[k]];
    var html := Page(pieces, names, contents);
    hide Ready, Names, TagName, Inert;
    NamesArePlain();
    forall m | 0 <= m < 3 ensures exists a, v, b :: Carries(html, names[m], a, v, b) {
      PageAround(pieces, names, contents, m);
      hide Page, Ahead, Behind, Tag;
      assert Carries(html, names[m], Ahead(pieces, names, contents, m), contents[m], Behind(pieces, names, contents, m));
    }
    hide Carries, Page;
    forall m | 0 <= m < 3 ensures exists a, v, b :: Carries(html, NAMES[m], a, v, b) {
      assert m == i || m == j || m == k;
      assert NAMES[m] == names[if m == i then 0 else if m == j then 1 else 2];
    }
    ShippedIsReady(html, NAMES);
  }
}
