/** The frontmatter documents the CMS lifecycle hooks write: a `---` block of
    `key: value` lines (a value either double-quoted with its `"` escaped or
    written as it is), optionally a `key:` header followed by entries
    indented by two spaces, then the closing `---` and the body.
    Besides the rendering, this module gives an independent reading of the
    same layout (the line split at the first colon, quotes removed and `\"`
    read back as `"`) and proves that a document reads back as the entries it
    was rendered from. */
module MdxDocument {
  import opened Text
  import opened Escapes
  import opened FrontmatterBlock

  datatype Value = Quoted(s: string) | Plain(s: string)

  /** A top-level `key: value` line, a `key:` header line, or an entry
      indented under the last header. */
  datatype Entry = Field(key: string, value: Value) | Header(key: string) | Item(key: string, value: Value)

  /** Some entry of `es` has the key `k`. */
  predicate HasKey(es: seq<Entry>, k: string) {
    exists i :: 0 <= i < |es| && es[i].key == k
  }

  lemma HasKeyConcat(a: seq<Entry>, b: seq<Entry>, k: string)
    ensures HasKey(a + b, k) <==> HasKey(a, k) || HasKey(b, k)
  {
    if HasKey(a + b, k) {
      var i :| 0 <= i < |a + b| && (a + b)[i].key == k;
      if i >= |a| {
        assert b[i - |a|].key == k;
      }
    }
    if HasKey(a, k) {
      var i :| 0 <= i < |a| && a[i].key == k;
      assert (a + b)[i].key == k;
    }
    if HasKey(b, k) {
      var i :| 0 <= i < |b| && b[i].key == k;
      assert (a + b)[i + |a|].key == k;
    }
  }

  function RenderValue(v: Value): string {
    match v
    case Quoted(s) => "\"" + EscapeQuotes(s) + "\""
    case Plain(s) => s
  }

  function Line(e: Entry): string {
    match e
    case Field(k, v) => k + ": " + RenderValue(v)
    case Header(k) => k + ":"
    case Item(k, v) => "  " + k + ": " + RenderValue(v)
  }

  function Lines(es: seq<Entry>): (r: seq<string>)
    ensures |r| == |es| && forall i :: 0 <= i < |es| ==> r[i] == Line(es[i])
  {
    seq(|es|, i requires 0 <= i < |es| => Line(es[i]))
  }

  /** The text of a document: the frontmatter block of the entries, then the
      body as it is (the hooks' bodies start with the empty line after the
      block). */
  function Document(es: seq<Entry>, body: string): (doc: string)
    ensures StartsWith(doc, Opening)
  {
    Opening + Join(Lines(es), "\n") + Closing + body
  }

  // ---------------------------------------------------------------------
  // Reading a document back

  /** A raw value that both starts and ends with `"` is a quoted text whose
      `\"` stand for `"`; anything else is taken as it is. */
  function ReadValue(raw: string): Value {
    if |raw| >= 2 && raw[0] == '"' && raw[|raw| - 1] == '"' then Quoted(UnescapeQuotes(raw[1..|raw| - 1]))
    else Plain(raw)
  }

  /** One line: indented lines are entries under a header, a line that ends at
      its first colon is a header, any other line with a key is a field. */
  function ReadLine(line: string): Option<Entry> {
    match KeyValue(line)
    case None => None
    case Some((k, raw)) =>
      if StartsWith(line, "  ") then Some(Item(k, ReadValue(raw)))
      else if IndexOf(line, ':') == |line| - 1 then Some(Header(k))
      else Some(Field(k, ReadValue(raw)))
  }

  /** All lines read, or `None` when one of them is not a key line. */
  function ReadLines(lines: seq<string>): (r: Option<seq<Entry>>)
    ensures r.Some? ==> |r.value| == |lines|
  {
    if |lines| == 0 then Some([])
    else
      match (ReadLine(lines[0]), ReadLines(lines[1..]))
      case (Some(e), Some(rest)) => Some([e] + rest)
      case _ => None
  }

  /** The entries and the body of a document, when it has a frontmatter block
      made of key lines. */
  function ReadDocument(text: string): Option<(seq<Entry>, string)> {
    match MatchBlock(text)
    case None => None
    case Some(b) =>
      match ReadLines(Split(b.frontmatter, '\n'))
      case None => None
      case Some(es) => Some((es, b.body))
  }

  // ---------------------------------------------------------------------
  // What a serialiser may put in an entry

  /** A key the reader finds again: not empty, no colon, no line break, no
      white space at either end, and not starting with `-`. */
  predicate GoodKey(k: string) {
    |k| > 0 && ':' !in k && '\n' !in k && !IsSpace(k[0]) && !IsSpace(k[|k| - 1]) && k[0] != '-'
  }

  /** A value the reader finds again: no line break; a plain value also has
      no white space at either end and does not start with `"`. */
  predicate GoodValue(v: Value) {
    '\n' !in v.s
    && (v.Plain? ==> v.s == [] || (!IsSpace(v.s[0]) && !IsSpace(v.s[|v.s| - 1]) && v.s[0] != '"'))
  }

  predicate GoodEntry(e: Entry) {
    GoodKey(e.key) && (e.Header? || GoodValue(e.value))
  }

  /** A decimal number is a plain value the reader finds again. */
  lemma PlainNumber(n: int)
    ensures GoodValue(Plain(IntToString(n)))
  {
    var d := NatToString(if n < 0 then -n else n);
    var s := IntToString(n);
    assert s[|s| - 1] == d[|d| - 1] && IsDigit(d[|d| - 1]);
    assert IsDigit(s[0]) || s[0] == '-';
    assert '\n' !in d by {
      forall i | 0 <= i < |d| ensures d[i] != '\n' {
        assert IsDigit(d[i]);
      }
    }
  }

  lemma RenderedValue(v: Value)
    requires GoodValue(v)
    ensures var r := RenderValue(v);
      '\n' !in r && ReadValue(r) == v
      && (r == [] || (!IsSpace(r[0]) && !IsSpace(r[|r| - 1])))
  {
    if v.Quoted? {
      var e := EscapeQuotes(v.s);
      var r := RenderValue(v);
      ReplaceCharFree(v.s, '"', "\\\"", '\n');
      assert r[1..|r| - 1] == e;
      UnescapeEscape(v.s);
    }
  }

  /** The first colon of `k + rest` is the one `rest` starts with. */
  lemma FirstColonAfter(k: string, rest: string)
    requires ':' !in k && |rest| > 0 && rest[0] == ':'
    ensures IndexOf(k + rest, ':') == |k|
  {
    var line := k + rest;
    assert line[..|k|] == k && line[|k|] == ':';
  }

  /** Every well-formed entry reads back from its own line. */
  lemma ReadLineOfLine(e: Entry)
    requires GoodEntry(e)
    ensures ReadLine(Line(e)) == Some(e)
    ensures '\n' !in Line(e) && (Line(e) == [] || Line(e)[0] != '-')
  {
    match e
    case Field(k, v) => ReadField(k, v);
    case Header(k) => ReadHeader(k);
    case Item(k, v) => ReadItem(k, v);
  }

  /** Every entry of `es` is well formed. */
  predicate GoodEntries(es: seq<Entry>) {
    forall i :: 0 <= i < |es| ==> GoodEntry(es[i])
  }

  lemma GoodEntriesConcat(a: seq<Entry>, b: seq<Entry>)
    requires GoodEntries(a) && GoodEntries(b)
    ensures GoodEntries(a + b)
  {
    forall i | 0 <= i < |a + b| ensures GoodEntry((a + b)[i]) {
      if i >= |a| {
        assert (a + b)[i] == b[i - |a|];
      }
    }
  }

  /** A text field written (quoted) only when it is set and not empty, as
      the serialisers' conditional spreads and `filter(Boolean)` do. */
  function OptionalField(key: string, v: Option<string>): (r: seq<Entry>)
    ensures |r| <= 1
    ensures r != [] <==> v.Some? && v.value != ""
    ensures r != [] ==> r[0] == Field(key, Quoted(v.value))
  {
    if v.Some? && v.value != "" then [Field(key, Quoted(v.value))] else []
  }

  lemma OptionalFieldGood(key: string, v: Option<string>)
    requires GoodKey(key) && (v.Some? ==> '\n' !in v.value)
    ensures GoodEntries(OptionalField(key, v))
  {
    hide GoodKey;
  }

  /** The lines of two runs of entries are the lines of each, in order. */
  lemma LinesConcat(a: seq<Entry>, b: seq<Entry>)
    ensures Lines(a + b) == Lines(a) + Lines(b)
  {
  }

  /** A rendered value: no line break and no white space at either end. */
  predicate GoodRaw(r: string) {
    '\n' !in r && (r == [] || (!IsSpace(r[0]) && !IsSpace(r[|r| - 1])))
  }

  lemma ReadField(k: string, v: Value)
    requires GoodKey(k) && GoodValue(v)
    ensures ReadLine(k + ": " + RenderValue(v)) == Some(Field(k, v))
    ensures '\n' !in k + ": " + RenderValue(v) && (k + ": " + RenderValue(v))[0] != '-'
  {
    RenderedValue(v);
    ReadFieldRaw(k, RenderValue(v));
  }

  lemma ReadFieldRaw(k: string, r: string)
    requires GoodKey(k) && GoodRaw(r)
    ensures ReadLine(k + ": " + r) == Some(Field(k, ReadValue(r)))
    ensures '\n' !in k + ": " + r && (k + ": " + r)[0] != '-'
  {
    KeyValueOfField(k, r);
    FieldUnindented(k, r);
    hide KeyValue, IndexOf, StartsWith, ReadValue;
  }

  lemma FieldUnindented(k: string, r: string)
    requires GoodKey(k) && GoodRaw(r)
    ensures var line := k + ": " + r;
      !StartsWith(line, "  ") && IndexOf(line, ':') == |k| && '\n' !in line && line[0] != '-'
  {
    var line := k + ": " + r;
    assert line == k + (": " + r);
    FirstColonAfter(k, ": " + r);
    assert line[0] == k[0] && line[..2][0] == k[0];
    assert '\n' !in line by {
      assert '\n' !in k && '\n' !in ": " && '\n' !in r;
    }
  }

  lemma ReadHeader(k: string)
    requires GoodKey(k)
    ensures ReadLine(k + ":") == Some(Header(k))
    ensures '\n' !in k + ":" && (k + ":")[0] != '-'
  {
    var line := k + ":";
    KeyValueOfBareKey(k);
    FirstColonAfter(k, ":");
    assert line[0] == k[0];
    assert !StartsWith(line, "  ") by {
      if |line| >= 2 {
        assert line[..2][0] == k[0];
      }
    }
    hide KeyValue, IndexOf, StartsWith, Trim, TrimStart, TrimEnd;
  }

  lemma ReadItem(k: string, v: Value)
    requires GoodKey(k) && GoodValue(v)
    ensures ReadLine("  " + k + ": " + RenderValue(v)) == Some(Item(k, v))
    ensures '\n' !in "  " + k + ": " + RenderValue(v)
  {
    RenderedValue(v);
    ReadItemRaw(k, RenderValue(v));
  }

  lemma ReadItemRaw(k: string, r: string)
    requires GoodKey(k) && GoodRaw(r)
    ensures ReadLine("  " + k + ": " + r) == Some(Item(k, ReadValue(r)))
    ensures '\n' !in "  " + k + ": " + r
  {
    KeyValueOfNestedField(k, r);
    ItemIndented(k, r);
    hide KeyValue, IndexOf, StartsWith, ReadValue;
  }

  lemma ItemIndented(k: string, r: string)
    requires GoodKey(k) && GoodRaw(r)
    ensures StartsWith("  " + k + ": " + r, "  ")
    ensures '\n' !in "  " + k + ": " + r
  {
    assert ("  " + k + ": " + r)[..2] == "  ";
  }

  lemma {:induction false} ReadLinesOfLines(es: seq<Entry>)
    requires forall i :: 0 <= i < |es| ==> GoodEntry(es[i])
    ensures ReadLines(Lines(es)) == Some(es)
    decreases |es|
  {
    hide *;
    if |es| > 0 {
      var lines := Lines(es);
      ReadLineOfLine(es[0]);
      assert lines == [lines[0]] + Lines(es[1..]);
      ReadLinesOfLines(es[1..]);
      ReadLinesCons(lines[0], Lines(es[1..]));
      assert es == [es[0]] + es[1..];
    } else {
      assert Lines(es) == [];
      ReadLinesEmpty();
    }
  }

  lemma ReadLinesEmpty()
    ensures ReadLines([]) == Some([])
  {
  }

  lemma ReadLinesCons(l: string, rest: seq<string>)
    ensures ReadLines([l] + rest) == match (ReadLine(l), ReadLines(rest))
      case (Some(e), Some(es)) => Some([e] + es)
      case _ => None
  {
    assert ([l] + rest)[1..] == rest;
  }

  lemma LinesSafe(es: seq<Entry>)
    requires forall i :: 0 <= i < |es| ==> GoodEntry(es[i])
    ensures SafeLines(Lines(es))
  {
    forall i | 0 <= i < |es| ensures '\n' !in Lines(es)[i] && (Lines(es)[i] == [] || Lines(es)[i][0] != '-') {
      ReadLineOfLine(es[i]);
    }
  }

  /** A document rendered from well-formed entries reads back as exactly those
      entries, in order, and the same body: nothing in the block is lost,
      reordered or merged. */
  lemma ReadDocumentOfDocument(es: seq<Entry>, body: string)
    requires |es| >= 1
    requires forall i :: 0 <= i < |es| ==> GoodEntry(es[i])
    ensures ReadDocument(Document(es, body)) == Some((es, body))
  {
    var lines := Lines(es);
    LinesSafe(es);
    DocumentMatches(lines, body);
    SplitJoin(lines, '\n');
    ReadLinesOfLines(es);
  }
}
