/** The stand-alone webhook that turns a Strapi press payload into an MDX file
    under `src/content/press`: it checks the method, the path and the HMAC
    signature, parses the JSON body, normalises the entry with fallbacks for
    every field, serialises a YAML frontmatter and writes
    `<slug>.mdx`. */
module StrapiWebhook {
  import opened Text
  import opened Slugs

  // ---------------------------------------------------------------------
  // JavaScript values as JSON.parse produces them

  /** A parsed JSON value, plus `undefined` for a missing property. Numbers
      are integers here. */
  datatype JsValue = Undefined | Null | Bool(b: bool) | Num(n: int) | Str(s: string)
                   | Arr(items: seq<JsValue>) | Obj(fields: map<string, JsValue>)

  /** JavaScript truthiness. */
  predicate Truthy(v: JsValue) {
    match v
    case Undefined => false
    case Null => false
    case Bool(b) => b
    case Num(n) => n != 0
    case Str(s) => s != ""
    case Arr(_) => true
    case Obj(_) => true
  }

  /** `a || b` */
  function Or(a: JsValue, b: JsValue): (r: JsValue)
    ensures Truthy(a) ==> r == a
    ensures !Truthy(a) ==> r == b
  {
    if Truthy(a) then a else b
  }

  /** `v?.key`: a missing property, or a property of anything but an object,
      is `undefined`. */
  function Get(v: JsValue, key: string): JsValue {
    if v.Obj? && key in v.fields then v.fields[key] else Undefined
  }

  /** `String(v)`; an array joins its elements with `,`, showing `null` and
      `undefined` elements as nothing. */
  function ToStr(v: JsValue): string
    decreases v, 1
  {
    match v
    case Undefined => "undefined"
    case Null => "null"
    case Bool(b) => if b then "true" else "false"
    case Num(n) => IntToString(n)
    case Str(s) => s
    case Arr(items) => JoinItems(items, v)
    case Obj(_) => "[object Object]"
  }

  function JoinItems(items: seq<JsValue>, whole: JsValue): string
    requires forall i :: 0 <= i < |items| ==> items[i] < whole
    decreases whole, 0, |items|
  {
    if |items| == 0 then ""
    else
      var head := if items[0].Undefined? || items[0].Null? then "" else ToStr(items[0]);
      if |items| == 1 then head else head + "," + JoinItems(items[1..], whole)
  }

  // ---------------------------------------------------------------------
  // escapeYaml

  /** Backslashes first, then quotes, then line feeds. */
  function EscapeYaml(v: string): string {
    ReplaceChar(ReplaceChar(ReplaceChar(v, '\\', "\\\\"), '"', "\\\""), '\n', "\\n")
  }

  /** What the three replacements do to one character. */
  function EscapeChar(c: char): string {
    if c == '\\' then "\\\\" else if c == '"' then "\\\"" else if c == '\n' then "\\n" else [c]
  }

  function EscapeEach(v: string): string {
    if |v| == 0 then "" else EscapeChar(v[0]) + EscapeEach(v[1..])
  }

  /** Reads the escapes back, left to right: `\\`, `\"` and `\n` stand for one
      character each; anything else is kept. */
  function UnescapeYaml(t: string): string {
    if |t| == 0 then ""
    else if |t| >= 2 && t[0] == '\\' && t[1] == '\\' then "\\" + UnescapeYaml(t[2..])
    else if |t| >= 2 && t[0] == '\\' && t[1] == '"' then "\"" + UnescapeYaml(t[2..])
    else if |t| >= 2 && t[0] == '\\' && t[1] == 'n' then "\n" + UnescapeYaml(t[2..])
    else [t[0]] + UnescapeYaml(t[1..])
  }

  /** The three replacements in a row amount to escaping each character on its
      own: none of them rewrites what an earlier one wrote. */
  lemma {:induction false} EscapeYamlPerChar(v: string)
    ensures EscapeYaml(v) == EscapeEach(v)
    decreases |v|
  {
    if |v| > 0 {
      var c, rest := v[0], v[1..];
      var one := ReplaceChar(rest, '\\', "\\\\");
      var two := ReplaceChar(one, '"', "\\\"");
      var h1 := if c == '\\' then "\\\\" else [c];
      assert ReplaceChar(v, '\\', "\\\\") == h1 + one;
      ReplaceCharAppend(h1, one, '"', "\\\"");
      var h2 := ReplaceChar(h1, '"', "\\\"");
      ReplaceCharAppend(h2, two, '\n', "\\n");
      var h3 := ReplaceChar(h2, '\n', "\\n");
      assert h3 == EscapeChar(c) by {
        if c == '\\' {
          assert h1 == ['\\'] + ['\\'];
          assert h2 == h1;
        } else if c == '"' {
          assert h2 == "\\\"";
          assert h2 == ['\\'] + ['"'];
        } else if c == '\n' {
          assert h2 == "\n";
        }
      }
      EscapeYamlPerChar(rest);
    }
  }

  /** No raw line feed survives the escaping. */
  lemma {:induction false} EscapeEachSingleLine(v: string)
    ensures '\n' !in EscapeEach(v)
    decreases |v|
  {
    if |v| > 0 {
      EscapeEachSingleLine(v[1..]);
    }
  }

  lemma {:induction false} UnescapeEscapeEach(v: string)
    ensures UnescapeYaml(EscapeEach(v)) == v
    decreases |v|
  {
    if |v| > 0 {
      var c, t := v[0], EscapeEach(v[1..]);
      UnescapeEscapeEach(v[1..]);
      var e := EscapeChar(c) + t;
      if c == '\\' || c == '"' || c == '\n' {
        assert e[2..] == t;
      } else {
        assert e[1..] == t;
      }
    }
  }

  /** An escaped value stays on one line, and reading the escapes back gives
      the value again. */
  lemma EscapeYamlRoundTrip(v: string)
    ensures '\n' !in EscapeYaml(v)
    ensures UnescapeYaml(EscapeYaml(v)) == v
  {
    EscapeYamlPerChar(v);
    EscapeEachSingleLine(v);
    UnescapeEscapeEach(v);
  }

  // ---------------------------------------------------------------------
  // serializeFrontmatter

  /** The values `append` skips: `undefined`, `null`, `''` and `[]`. */
  predicate Omitted(v: JsValue) {
    v.Undefined? || v.Null? || v == Str("") || v == Arr([])
  }

  /** One `  - item` line per array element. */
  function ItemLines(items: seq<JsValue>): (r: seq<string>)
    ensures |r| == |items|
  {
    seq(|items|, i requires 0 <= i < |items| => "  - " + EscapeYaml(ToStr(items[i])))
  }

  /** The lines `append(key, value, { raw })` pushes. */
  function AppendLines(key: string, v: JsValue, raw: bool): (r: seq<string>)
    ensures r == [] <==> Omitted(v)
  {
    if Omitted(v) then []
    else if v.Arr? then [key + ":"] + ItemLines(v.items)
    else if v.Bool? || v.Num? || raw then [key + ": " + ToStr(v)]
    else [key + ": \"" + EscapeYaml(ToStr(v)) + "\""]
  }

  /** The normalised entry. */
  datatype Meta = Meta(title: JsValue, slug: JsValue, summary: JsValue, url: string, source: JsValue,
                       date: JsValue, tags: JsValue, image: JsValue, featured: bool, body: JsValue)

  /** `new Date(value).toISOString().slice(0, 10)`, or today's date when the
      value is not a date; `isoDate` is the host's date parser and
      formatter. */
  function FormatDate(v: JsValue, isoDate: JsValue -> Option<string>, nowIso: string): (r: string)
    ensures |r| <= 10
  {
    var iso := if isoDate(v).Some? then isoDate(v).value else nowIso;
    if |iso| <= 10 then iso else iso[..10]
  }

  /** The frontmatter lines in their fixed key order; the date is written
      bare. */
  function FrontmatterLines(m: Meta, date: string): seq<string> {
    AppendLines("title", m.title, false) + AppendLines("slug", m.slug, false)
    + AppendLines("summary", m.summary, false) + AppendLines("url", Str(m.url), false)
    + AppendLines("source", m.source, false) + AppendLines("date", Str(date), true)
    + AppendLines("tags", m.tags, false) + AppendLines("image", m.image, false)
    + AppendLines("featured", Bool(m.featured), false)
  }

  function SerializeFrontmatter(m: Meta, date: string): string {
    "---\n" + Join(FrontmatterLines(m, date), "\n") + "\n---\n"
  }

  /** Every line `append` pushes is one line: keys and the bare date have no
      line feed, and everything else is a number, a boolean or escaped. */
  lemma AppendSingleLine(key: string, v: JsValue, raw: bool)
    requires '\n' !in key
    requires raw && v.Str? ==> '\n' !in v.s
    ensures forall i :: 0 <= i < |AppendLines(key, v, raw)| ==> '\n' !in AppendLines(key, v, raw)[i]
  {
    hide *;
    if Omitted(v) {
      OmittedNoLines(key, v, raw);
    } else if v.Arr? {
      ArrayLinesSingle(key, v, raw);
    } else if v.Bool? || v.Num? || raw {
      PlainLineSingle(key, v, raw);
    } else {
      QuotedLineSingle(key, v, raw);
    }
  }

  lemma OmittedNoLines(key: string, v: JsValue, raw: bool)
    requires Omitted(v)
    ensures forall i :: 0 <= i < |AppendLines(key, v, raw)| ==> '\n' !in AppendLines(key, v, raw)[i]
  {
    assert AppendLines(key, v, raw) == [];
  }

  /** The header and item lines of an array are single lines. */
  lemma ArrayLinesSingle(key: string, v: JsValue, raw: bool)
    requires '\n' !in key
    requires !Omitted(v) && v.Arr?
    ensures forall i :: 0 <= i < |AppendLines(key, v, raw)| ==> '\n' !in AppendLines(key, v, raw)[i]
  {
    var r := AppendLines(key, v, raw);
    var items := ItemLines(v.items);
    assert r == [key + ":"] + items;
    hide *;
    forall i | 0 <= i < |r| ensures '\n' !in r[i] {
      if i > 0 {
        assert r[i] == items[i - 1];
        ItemLineSingle(v.items, i - 1);
      }
    }
  }

  lemma ItemLineSingle(items: seq<JsValue>, j: int)
    requires 0 <= j < |items|
    ensures '\n' !in ItemLines(items)[j]
  {
    var e := EscapeYaml(ToStr(items[j]));
    assert ItemLines(items)[j] == "  - " + e;
    EscapeYamlRoundTrip(ToStr(items[j]));
    hide *;
    assert '\n' !in "  - " + e;
  }

  /** A boolean, a number or a raw value gives one line. */
  lemma PlainLineSingle(key: string, v: JsValue, raw: bool)
    requires '\n' !in key
    requires raw && v.Str? ==> '\n' !in v.s
    requires !Omitted(v) && !v.Arr? && (v.Bool? || v.Num? || raw)
    ensures forall i :: 0 <= i < |AppendLines(key, v, raw)| ==> '\n' !in AppendLines(key, v, raw)[i]
  {
    var t := ToStr(v);
    assert AppendLines(key, v, raw) == [key + ": " + t];
    PlainValueSingleLine(v, raw);
    hide *;
    assert '\n' !in key + ": " + t;
  }

  /** Any other value is quoted and escaped onto one line. */
  lemma QuotedLineSingle(key: string, v: JsValue, raw: bool)
    requires '\n' !in key
    requires !Omitted(v) && !v.Arr? && !v.Bool? && !v.Num? && !raw
    ensures forall i :: 0 <= i < |AppendLines(key, v, raw)| ==> '\n' !in AppendLines(key, v, raw)[i]
  {
    var e := EscapeYaml(ToStr(v));
    QuotedLine(key, v, raw);
    EscapeYamlRoundTrip(ToStr(v));
    hide *;
    QuotedNoFeed(key, e);
  }

  lemma QuotedNoFeed(key: string, e: string)
    requires '\n' !in key && '\n' !in e
    ensures '\n' !in key + ": \"" + e + "\""
  {
  }

  lemma QuotedLine(key: string, v: JsValue, raw: bool)
    requires !Omitted(v) && !v.Arr? && !v.Bool? && !v.Num? && !raw
    ensures AppendLines(key, v, raw) == [key + ": \"" + EscapeYaml(ToStr(v)) + "\""]
  {
  }

  /** A boolean, a number, or a raw string without line feeds is one line. */
  lemma PlainValueSingleLine(v: JsValue, raw: bool)
    requires v.Bool? || v.Num? || (raw && !v.Arr?)
    requires raw && v.Str? ==> '\n' !in v.s
    ensures '\n' !in ToStr(v)
  {
    if v.Num? {
      assert AllDigits(NatToString(if v.n < 0 then -v.n else v.n));
    }
  }

  /** A quoted line holds the value's text exactly: undoing the escapes
      between the quotes gives `String(value)` back. */
  lemma QuotedLineReadsBack(key: string, v: JsValue)
    requires !Omitted(v) && !v.Arr? && !v.Bool? && !v.Num?
    ensures var line := AppendLines(key, v, false)[0];
      var pre := key + ": \"";
      |line| >= |pre| + 1 && line[..|pre|] == pre && line[|line| - 1] == '"'
      && UnescapeYaml(line[|pre|..|line| - 1]) == ToStr(v)
  {
    var pre := key + ": \"";
    var e := EscapeYaml(ToStr(v));
    var line := pre + e + "\"";
    assert AppendLines(key, v, false)[0] == line;
    assert line[|pre|..|line| - 1] == e;
    EscapeYamlRoundTrip(ToStr(v));
  }

  /** An array value is its key alone on a line, then each element escaped
      behind `  - `. */
  lemma ArrayLinesReadBack(key: string, items: seq<JsValue>, i: nat)
    requires |items| > 0 && i < |items|
    ensures var r := AppendLines(key, Arr(items), false);
      |r| == |items| + 1 && r[0] == key + ":"
      && r[i + 1][..4] == "  - " && UnescapeYaml(r[i + 1][4..]) == ToStr(items[i])
  {
    hide EscapeYaml, UnescapeYaml, ToStr;
    var r := AppendLines(key, Arr(items), false);
    var e := EscapeYaml(ToStr(items[i]));
    assert r == [key + ":"] + ItemLines(items);
    assert ItemLines(items)[i] == "  - " + e;
    EscapeYamlRoundTrip(ToStr(items[i]));
    hide *;
    var line := "  - " + e;
    assert r[i + 1] == line;
    assert line[..4] == "  - " && line[4..] == e;
  }

  lemma LinesSingleLine(m: Meta, date: string)
    requires '\n' !in date
    ensures forall i :: 0 <= i < |FrontmatterLines(m, date)| ==> '\n' !in FrontmatterLines(m, date)[i]
  {
    AppendSingleLine("title", m.title, false);
    AppendSingleLine("slug", m.slug, false);
    AppendSingleLine("summary", m.summary, false);
    AppendSingleLine("url", Str(m.url), false);
    AppendSingleLine("source", m.source, false);
    AppendSingleLine("date", Str(date), true);
    AppendSingleLine("tags", m.tags, false);
    AppendSingleLine("image", m.image, false);
    AppendSingleLine("featured", Bool(m.featured), false);
    hide AppendLines;
  }

  /** The serialised block splits at line feeds into the opening `---`, the
      frontmatter lines, the closing `---` and nothing after the final line
      feed. The `featured` line is always there, last. */
  lemma SerializeReadsBack(m: Meta, date: string)
    requires '\n' !in date
    ensures var ls := FrontmatterLines(m, date);
      |ls| >= 1 && ls[|ls| - 1] == "featured: " + (if m.featured then "true" else "false")
      && Split(SerializeFrontmatter(m, date), '\n') == ["---"] + ls + ["---", ""]
  {
    var ls := FrontmatterLines(m, date);
    assert "featured" + ": " == "featured: ";
    assert AppendLines("featured", Bool(m.featured), false) == ["featured: " + ToStr(Bool(m.featured))];
    LinesSingleLine(m, date);
    BlockSplits(ls);
  }

  /** A block of single lines between two `---` lines splits back into them. */
  lemma BlockSplits(ls: seq<string>)
    requires |ls| >= 1 && forall i :: 0 <= i < |ls| ==> '\n' !in ls[i]
    ensures Split("---\n" + Join(ls, "\n") + "\n---\n", '\n') == ["---"] + ls + ["---", ""]
  {
    hide Split, Join;
    var body := Join(ls, "\n");
    var open, close := "---\n", "\n---\n";
    TailSplits(ls);
    assert open == "---" + ['\n'];
    AppendAssoc(open, body, close);
    SplitAppend("---", body + close, '\n');
  }

  lemma JoinClose()
    ensures Join(["---", ""], "\n") == "---\n"
    ensures "\n" + "---\n" == "\n---\n"
  {
  }

  lemma AppendAssoc(a: string, b: string, c: string)
    ensures a + b + c == a + (b + c)
  {
  }

  lemma TailSplits(ls: seq<string>)
    requires |ls| >= 1 && forall i :: 0 <= i < |ls| ==> '\n' !in ls[i]
    ensures Split(Join(ls, "\n") + "\n---\n", '\n') == ls + ["---", ""]
  {
    var parts := ls + ["---", ""];
    TailSingleLines(ls);
    JoinTail(ls);
    hide *;
    assert "\n" == ['\n'];
    SplitJoin(parts, '\n');
  }

  lemma TailSingleLines(ls: seq<string>)
    requires forall i :: 0 <= i < |ls| ==> '\n' !in ls[i]
    ensures forall i :: 0 <= i < |ls + ["---", ""]| ==> '\n' !in (ls + ["---", ""])[i]
  {
    var parts := ls + ["---", ""];
    forall i | 0 <= i < |parts| ensures '\n' !in parts[i] {
      if i < |ls| {
        assert parts[i] == ls[i];
      }
    }
  }

  lemma JoinTail(ls: seq<string>)
    requires |ls| >= 1
    ensures Join(ls + ["---", ""], "\n") == Join(ls, "\n") + "\n---\n"
  {
    JoinClose();
    hide Join;
    JoinAppend(ls, ["---", ""], "\n");
    AppendAssoc(Join(ls, "\n"), "\n", "---\n");
  }

  // ---------------------------------------------------------------------
  // normalizePayload

  /** `/^https?:\/\//i` */
  predicate HasScheme(s: string) {
    StartsWith(Lower(s), "http://") || StartsWith(Lower(s), "https://")
  }

  /** `normalizeUrl`: a placeholder for no URL, a trimmed URL with a scheme as
      it is, `https://` in front of one without. */
  function NormalizeUrl(v: JsValue): (r: string)
    ensures !Truthy(v) ==> r == "https://example.com"
    ensures Truthy(v) && HasScheme(Trim(ToStr(v))) ==> r == Trim(ToStr(v))
    ensures Truthy(v) && !HasScheme(Trim(ToStr(v))) ==> r == "https://" + Trim(ToStr(v))
  {
    if !Truthy(v) then "https://example.com"
    else
      var trimmed := Trim(ToStr(v));
      if HasScheme(trimmed) then trimmed else "https://" + trimmed
  }

  /** A normalised URL always has a scheme and normalises to itself. */
  lemma NormalizeUrlIdempotent(v: JsValue)
    ensures HasScheme(NormalizeUrl(v))
    ensures NormalizeUrl(Str(NormalizeUrl(v))) == NormalizeUrl(v)
  {
    var r := NormalizeUrl(v);
    if !Truthy(v) {
      HttpsPrefixed("example.com");
      assert r == "https://" + "example.com";
    } else {
      var t := Trim(ToStr(v));
      TrimmedEdges(ToStr(v));
      if !HasScheme(t) {
        HttpsPrefixed(t);
      }
    }
    SchemeKept(r);
  }

  /** `https://` in front of anything gives a scheme, and keeps a trimmed
      text trimmed. */
  lemma HttpsPrefixed(t: string)
    requires t == [] || (!IsSpace(t[0]) && !IsSpace(t[|t| - 1]))
    ensures HasScheme("https://" + t)
    ensures var r := "https://" + t; !IsSpace(r[0]) && !IsSpace(r[|r| - 1])
  {
    var r := "https://" + t;
    assert r[..8] == "https://";
    assert Lower(r)[..8] == "https://" by {
      forall i | 0 <= i < 8 ensures Lower(r)[i] == "https://"[i] {
        assert r[i] == "https://"[i];
      }
    }
    assert r[|r| - 1] == if |t| == 0 then '/' else t[|t| - 1];
  }

  /** A trimmed URL with a scheme is kept as it is. */
  lemma SchemeKept(r: string)
    requires HasScheme(r) && !IsSpace(r[0]) && !IsSpace(r[|r| - 1])
    ensures NormalizeUrl(Str(r)) == r
  {
    TrimOfTrimmed(r);
  }

  /** A trimmed string starts and ends with something other than white
      space. */
  lemma TrimmedEdges(s: string)
    ensures var t := Trim(s); t == [] || (!IsSpace(t[0]) && !IsSpace(t[|t| - 1]))
  {
    var t := Trim(s);
    if |t| > 0 {
      assert t[0] == TrimStart(s)[0];
    }
  }

  /** The attributes of a payload: under `entry` or `data` if present, under
      `attributes` if that is set. */
  function Attributes(payload: JsValue): JsValue {
    var entry := Or(Or(Or(Get(payload, "entry"), Get(payload, "data")), payload), Obj(map[]));
    Or(Get(entry, "attributes"), entry)
  }

  /** `attributes.slug || slugify(attributes.title || 'press-item')`; `None`
      when `slugify` is handed a title that is not a string and throws. */
  function SlugOf(a: JsValue): Option<JsValue> {
    if Truthy(Get(a, "slug")) then Some(Get(a, "slug"))
    else
      var source := Or(Get(a, "title"), Str("press-item"));
      if source.Str? then Some(Str(SlugifyAll(source.s))) else None
  }

  function TitleOf(a: JsValue): JsValue {
    Or(Or(Get(a, "title"), Get(a, "headline")), Str("Untitled press item"))
  }

  function SummaryOf(a: JsValue): JsValue {
    Or(Or(Or(Get(a, "summary"), Get(a, "description")), Get(a, "excerpt")), Str("Update summary pending."))
  }

  function UrlOf(a: JsValue): string {
    NormalizeUrl(Or(Or(Get(a, "url"), Get(a, "link")), Str("")))
  }

  function SourceOf(a: JsValue): JsValue {
    Or(Or(Get(a, "source"), Get(a, "publication")), Str("Press"))
  }

  /** The date, or the current time when the payload has none. */
  function DateOf(a: JsValue, nowIso: string): JsValue {
    Or(Or(Get(a, "date"), Get(a, "publishedAt")), Str(nowIso))
  }

  function TagsOf(a: JsValue): JsValue {
    Or(Or(Get(a, "tags"), Get(a, "keywords")), Arr([]))
  }

  function ImageOf(a: JsValue): JsValue {
    Or(Or(Or(Get(Get(a, "image"), "url"), Get(a, "hero_image")), Get(a, "featured_image")), Undefined)
  }

  function BodyOf(a: JsValue): JsValue {
    Or(Or(Or(Get(a, "body"), Get(a, "content")), Get(a, "markdown")), Str(""))
  }

  /** `normalizePayload`; `None` when the slug fallback throws. */
  function NormalizePayload(payload: JsValue, nowIso: string): Option<Meta> {
    var a := Attributes(payload);
    var slug := SlugOf(a);
    if slug.None? then None
    else Some(Meta(TitleOf(a), slug.value, SummaryOf(a), UrlOf(a), SourceOf(a), DateOf(a, nowIso),
                   TagsOf(a), ImageOf(a), Truthy(Get(a, "featured")), BodyOf(a)))
  }

  /** Normalising fails exactly for a payload with no slug whose title is set
      but is not a string. */
  lemma NormalizeFails(payload: JsValue, nowIso: string)
    ensures var a := Attributes(payload);
      NormalizePayload(payload, nowIso).None? <==>
        !Truthy(Get(a, "slug")) && Truthy(Get(a, "title")) && !Get(a, "title").Str?
  {
  }

  /** The payload's own slug is kept; without one the slug is a proper slug of
      the title, and `press-item` when there is no title either. */
  lemma NormalizedSlug(a: JsValue)
    requires SlugOf(a).Some?
    ensures Truthy(Get(a, "slug")) ==> SlugOf(a).value == Get(a, "slug")
    ensures !Truthy(Get(a, "slug")) ==> SlugOf(a).value.Str? && IsSlug(SlugOf(a).value.s)
    ensures !Truthy(Get(a, "slug")) && !Truthy(Get(a, "title")) ==> SlugOf(a).value == Str("press-item")
  {
    if !Truthy(Get(a, "slug")) {
      var source := Or(Get(a, "title"), Str("press-item"));
      SlugifiersAgree(source.s);
      SlugifyIsSlug(source.s);
      if !Truthy(Get(a, "title")) {
        PressItemIsSlug();
        SlugifyAllOfSlug("press-item");
      }
    }
  }

  /** Every field `serializeFrontmatter` quotes is present after normalising:
      a title, a summary, a source and a date always, with the documented
      fallbacks. */
  lemma NormalizedFallbacks(a: JsValue, nowIso: string)
    ensures Truthy(TitleOf(a)) && Truthy(SummaryOf(a)) && Truthy(SourceOf(a))
    ensures nowIso != "" ==> Truthy(DateOf(a, nowIso))
    ensures Truthy(Get(a, "title")) ==> TitleOf(a) == Get(a, "title")
    ensures !Truthy(Get(a, "title")) && !Truthy(Get(a, "headline")) ==> TitleOf(a) == Str("Untitled press item")
    ensures !Truthy(Get(a, "source")) && !Truthy(Get(a, "publication")) ==> SourceOf(a) == Str("Press")
  {
  }

  /** The URL always has a scheme, and is the placeholder when the payload
      has neither `url` nor `link`. */
  lemma NormalizedUrl(a: JsValue)
    ensures HasScheme(UrlOf(a))
    ensures !Truthy(Get(a, "url")) && !Truthy(Get(a, "link")) ==> UrlOf(a) == "https://example.com"
  {
    NormalizeUrlIdempotent(Or(Or(Get(a, "url"), Get(a, "link")), Str("")));
  }

  // ---------------------------------------------------------------------
  // verifySignature

  /** The number of UTF-8 bytes of a string (`Buffer.from(s, 'utf8').length`). */
  function Utf8Length(s: string): nat {
    if |s| == 0 then 0
    else
      var c := s[0] as int;
      (if c < 0x80 then 1 else if c < 0x800 then 2 else if c < 0x10000 then 3 else 4) + Utf8Length(s[1..])
  }

  /** The signature without a leading `sha256=`. */
  function Provided(header: string): (r: string)
    ensures StartsWith(header, "sha256=") ==> header == "sha256=" + r
    ensures !StartsWith(header, "sha256=") ==> r == header
  {
    if StartsWith(header, "sha256=") then header[7..] else header
  }

  /** `verifySignature`: accepted when there is no secret or no header;
      otherwise the hex HMAC of the body (`hmac(secret, body)`) must have as
      many bytes as the provided signature and equal it byte for byte. */
  predicate VerifySignature(rawBody: string, header: Option<string>, secret: string,
                            hmac: (string, string) -> string) {
    if secret == "" || header.None? || header.value == "" then true
    else
      var expected := hmac(secret, rawBody);
      var provided := Provided(header.value);
      Utf8Length(expected) == Utf8Length(provided) && expected == provided
  }

  /** The length check never decides on its own: a signature is accepted
      exactly when the secret or the header is missing, or the signature,
      with or without its `sha256=` prefix, is the expected HMAC. */
  lemma SignatureAccepted(rawBody: string, header: Option<string>, secret: string,
                          hmac: (string, string) -> string)
    ensures VerifySignature(rawBody, header, secret, hmac) <==>
      secret == "" || header.None? || header.value == ""
      || (header.value == hmac(secret, rawBody) && !StartsWith(header.value, "sha256="))
      || header.value == "sha256=" + hmac(secret, rawBody)
  {
  }

  /** As written, a request that carries no signature header, or an empty
      one, passes the check even when a secret is configured. */
  lemma MissingHeaderAccepted(rawBody: string, header: Option<string>, secret: string,
                              hmac: (string, string) -> string)
    requires secret != ""
    requires header.None? || header.value == ""
    ensures VerifySignature(rawBody, header, secret, hmac)
  {
  }

  /** The check with the secret enforced: once a secret is configured, a
      missing or empty header is refused and any other header is checked as
      `verifySignature` checks it. */
  predicate VerifySignatureEnforced(rawBody: string, header: Option<string>, secret: string,
                                    hmac: (string, string) -> string) {
    secret == "" || (header.Some? && header.value != "" && VerifySignature(rawBody, header, secret, hmac))
  }

  /** With the secret enforced, a request is accepted exactly when there is
      no secret or its signature, with or without `sha256=`, is the expected
      HMAC; a configured secret always needs a header. */
  lemma EnforcedNeedsSignature(rawBody: string, header: Option<string>, secret: string,
                               hmac: (string, string) -> string)
    ensures VerifySignatureEnforced(rawBody, header, secret, hmac) <==>
      secret == ""
      || (header.Some? && header.value != "" &&
          ((header.value == hmac(secret, rawBody) && !StartsWith(header.value, "sha256="))
           || header.value == "sha256=" + hmac(secret, rawBody)))
    ensures secret != "" && (header.None? || header.value == "") ==> !VerifySignatureEnforced(rawBody, header, secret, hmac)
  {
    SignatureAccepted(rawBody, header, secret, hmac);
  }

  // ---------------------------------------------------------------------
  // The request handler

  /** The press content directory, relative to the repository root. */
  const ContentDir: string := "src/content/press"

  datatype Request = Request(httpMethod: string, pathname: string, signature: Option<string>, rawBody: string)

  /** The host services the handler relies on: the secret, the HMAC, the JSON
      parser, the date parser and formatter, the current time, and whether
      the directory can be written. */
  datatype Host = Host(secret: string, hmac: (string, string) -> string, parse: string -> Option<JsValue>,
                       isoDate: JsValue -> Option<string>, nowIso: string, writable: bool)

  /** The answer: an error status with its message, `201` with the file name,
      or no answer at all when the handler throws. */
  datatype Reply = Failed(status: int, error: string) | Saved(file: string) | Dropped

  datatype Outcome = Outcome(reply: Reply, write: Option<(string, string)>)

  /** `${entry.slug || slugify(entry.title)}.mdx`; `None` when the fallback
      throws. */
  function FileName(m: Meta): Option<string> {
    if Truthy(m.slug) then Some(ToStr(m.slug) + ".mdx")
    else if m.title.Str? then Some(SlugifyAll(m.title.s) + ".mdx")
    else None
  }

  /** The file written for an entry: the frontmatter, an empty line, the body. */
  function Mdx(m: Meta, host: Host): string {
    SerializeFrontmatter(m, FormatDate(m.date, host.isoDate, host.nowIso)) + "\n" + ToStr(m.body) + "\n"
  }

  function Handle(req: Request, host: Host): Outcome {
    if req.httpMethod != "POST" then Outcome(Failed(405, "Method not allowed"), None)
    else if req.pathname != "/press" then Outcome(Failed(404, "Not found"), None)
    else if !VerifySignature(req.rawBody, req.signature, host.secret, host.hmac) then
      Outcome(Failed(401, "Invalid signature"), None)
    else if host.parse(req.rawBody).None? then Outcome(Failed(400, "Invalid JSON payload"), None)
    else
      var entry := NormalizePayload(host.parse(req.rawBody).value, host.nowIso);
      if entry.None? || FileName(entry.value).None? then Outcome(Dropped, None)
      else if !host.writable then Outcome(Failed(500, "Failed to write MDX file"), None)
      else
        var name := FileName(entry.value).value;
        Outcome(Saved(name), Some((ContentDir + "/" + name, Mdx(entry.value, host))))
  }

  /** The checks come in a fixed order and each status names the first that
      fails: 405, then 404, then 401, then 400, then 500. Only a `201` writes,
      and it writes the file it names, under the press directory. */
  lemma HandleOrder(req: Request, host: Host)
    ensures var o := Handle(req, host);
      var verified := VerifySignature(req.rawBody, req.signature, host.secret, host.hmac);
      var parsed := host.parse(req.rawBody).Some?;
      (o.reply == Failed(405, "Method not allowed") <==> req.httpMethod != "POST")
      && (o.reply == Failed(404, "Not found") <==> req.httpMethod == "POST" && req.pathname != "/press")
      && (o.reply == Failed(401, "Invalid signature") <==>
            req.httpMethod == "POST" && req.pathname == "/press" && !verified)
      && (o.reply == Failed(400, "Invalid JSON payload") <==>
            req.httpMethod == "POST" && req.pathname == "/press" && verified && !parsed)
      && (o.reply.Failed? && o.reply.status == 500 ==> !host.writable)
      && (o.reply.Saved? || o.reply == Failed(500, "Failed to write MDX file") || o.reply.Dropped? ==>
            req.httpMethod == "POST" && req.pathname == "/press" && verified && parsed)
      && (o.write.Some? <==> o.reply.Saved?)
      && (o.reply.Saved? ==>
            host.writable && EndsWith(o.reply.file, ".mdx") && o.write.value.0 == ContentDir + "/" + o.reply.file)
  {
    hide Mdx, NormalizePayload;
    var o := Handle(req, host);
    if o.reply.Saved? {
      var f := o.reply.file;
      assert f[|f| - 4..] == ".mdx";
    }
  }

  /** Once the body is accepted and parsed, only a title that is not a string
      with no slug stops the handler from answering: such a payload leaves
      the request unanswered. */
  lemma DroppedIff(req: Request, host: Host)
    requires req.httpMethod == "POST" && req.pathname == "/press"
    requires VerifySignature(req.rawBody, req.signature, host.secret, host.hmac)
    requires host.parse(req.rawBody).Some?
    ensures var a := Attributes(host.parse(req.rawBody).value);
      Handle(req, host).reply.Dropped? <==>
        !Truthy(Get(a, "slug")) && Truthy(Get(a, "title")) && !Get(a, "title").Str?
  {
    var payload := host.parse(req.rawBody).value;
    NormalizeFails(payload, host.nowIso);
    FileNameDefined(payload, host.nowIso);
    hide VerifySignature, Mdx, NormalizePayload, FileName, Attributes;
  }

  /** A normalised entry always has a file name: with no slug of its own, its
      title is a string. */
  lemma FileNameDefined(payload: JsValue, nowIso: string)
    ensures NormalizePayload(payload, nowIso).Some? ==> FileName(NormalizePayload(payload, nowIso).value).Some?
  {
    hide NormalizeUrl, SummaryOf, SourceOf, DateOf, TagsOf, ImageOf, BodyOf, ToStr, SlugifyAll, Attributes;
    var a := Attributes(payload);
    if SlugOf(a).Some? {
      NormalizedSlug(a);
      NormalizedFallbacks(a, nowIso);
    }
  }

  /** A payload with no slug whose title is a non-empty text without any
      letter or digit, such as `!!!`, is saved as `.mdx`: the second
      `slugify` in the file name gives the same empty slug as the first. */
  lemma EmptySlugFileName(payload: JsValue, nowIso: string, t: string)
    requires !Truthy(Get(Attributes(payload), "slug")) && Get(Attributes(payload), "title") == Str(t)
    requires t != [] && forall i :: 0 <= i < |t| ==> !IsLowerAlnum(LowerChar(t[i]))
    ensures var m := NormalizePayload(payload, nowIso); m.Some? && FileName(m.value) == Some(".mdx")
  {
    TitleSlug(Attributes(payload), t);
    hide SlugifyAll, Slugify, NormalizeUrl, ToStr, SummaryOf, SourceOf, DateOf, TagsOf, ImageOf, BodyOf, Attributes, SlugOf, TitleOf;
    NoAlnumEmptySlug(t);
    var m := NormalizePayload(payload, nowIso);
    assert m.Some? && m.value.slug == Str("") && m.value.title == Str(t);
    assert FileName(m.value) == Some(SlugifyAll(t) + ".mdx");
    assert SlugifyAll(t) + ".mdx" == ".mdx";
  }

  /** Without a slug of its own, a payload titled by a text is slugged from
      that title and keeps it as its title. */
  lemma TitleSlug(a: JsValue, t: string)
    requires !Truthy(Get(a, "slug")) && Get(a, "title") == Str(t) && t != []
    ensures SlugOf(a) == Some(Str(SlugifyAll(t))) && TitleOf(a) == Str(t)
  {
    hide SlugifyAll;
  }

  /** A saved entry's file is the frontmatter block and the body, and the
      block splits back into its lines. */
  lemma SavedFileReadsBack(req: Request, host: Host)
    requires Handle(req, host).reply.Saved?
    requires forall v :: host.isoDate(v).Some? ==> '\n' !in host.isoDate(v).value
    requires '\n' !in host.nowIso
    ensures var m := NormalizePayload(host.parse(req.rawBody).value, host.nowIso).value;
      var date := FormatDate(m.date, host.isoDate, host.nowIso);
      var doc := Handle(req, host).write.value.1;
      var block := SerializeFrontmatter(m, date);
      doc == block + "\n" + ToStr(m.body) + "\n"
      && Split(block, '\n') == ["---"] + FrontmatterLines(m, date) + ["---", ""]
  {
    hide VerifySignature, SerializeFrontmatter, FrontmatterLines, NormalizeUrl, ToStr, SlugifyAll, Attributes;
    var m := NormalizePayload(host.parse(req.rawBody).value, host.nowIso).value;
    var date := FormatDate(m.date, host.isoDate, host.nowIso);
    var iso := if host.isoDate(m.date).Some? then host.isoDate(m.date).value else host.nowIso;
    assert date == iso || date == iso[..10];
    assert '\n' !in date;
    SerializeReadsBack(m, date);
  }
}
