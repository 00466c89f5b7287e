/** The translation exporter: for every published English blog post it writes
    an English reference file and one file per locale that still lacks a
    translation (or every locale, under `--force`), each an `.mdx` document
    whose frontmatter carries the post's fields and a table of the slugs the
    translations will take. */
module ExportTranslations {
  import opened Text
  import opened Escapes
  import opened OrderedDict
  import opened FrontmatterBlock
  import ImportTranslations

  // ---------------------------------------------------------------------
  // Command line

  /** The argument after the first occurrence of `name`, when there is one. */
  function GetArgValue(args: seq<string>, name: string): (r: Option<string>)
    ensures name !in args ==> r.None?
    ensures forall k :: 0 <= k < |args| && args[k] == name && name !in args[..k] ==>
      (r.Some? <==> k + 1 < |args|) && (r.Some? ==> r.value == args[k + 1])
    decreases |args|
  {
    if |args| == 0 then None
    else if args[0] == name then (if 1 < |args| then Some(args[1]) else None)
    else
      var r := GetArgValue(args[1..], name);
      assert forall k :: 1 <= k < |args| && args[k] == name && name !in args[..k] ==>
        args[1..][k - 1] == name && name !in args[1..][..k - 1] by {
        forall k | 1 <= k < |args| && args[k] == name && name !in args[..k]
          ensures args[1..][k - 1] == name && name !in args[1..][..k - 1]
        {
          assert args[1..][..k - 1] == args[..k][1..];
        }
      }
      r
  }

  /** An option given before any other mention of its name yields the
      argument that follows it, whatever comes after. */
  lemma GetArgValueAfter(before: seq<string>, name: string, v: string, after: seq<string>)
    requires name !in before
    ensures GetArgValue(before + [name, v] + after, name) == Some(v)
  {
    var args := before + [name, v] + after;
    assert args[|before|] == name && args[|before| + 1] == v;
    assert args[..|before|] == before;
  }

  /** The leading run of decimal digits. */
  function DigitPrefix(s: string): (r: string)
    ensures |r| <= |s| && r == s[..|r|]
    ensures forall i :: 0 <= i < |r| ==> IsDigit(r[i])
    ensures |r| == |s| || !IsDigit(s[|r|])
  {
    if |s| == 0 || !IsDigit(s[0]) then ""
    else [s[0]] + DigitPrefix(s[1..])
  }

  predicate IsHexDigit(c: char) {
    IsDigit(c) || ('a' <= c <= 'f') || ('A' <= c <= 'F')
  }

  function HexDigitValue(c: char): (d: nat)
    requires IsHexDigit(c)
    ensures d < 16
    ensures IsDigit(c) ==> d == c as int - '0' as int
  {
    if IsDigit(c) then c as int - '0' as int
    else if 'a' <= c <= 'f' then c as int - 'a' as int + 10
    else c as int - 'A' as int + 10
  }

  /** The leading run of hexadecimal digits. */
  function HexDigitPrefix(s: string): (r: string)
    ensures |r| <= |s| && r == s[..|r|]
    ensures forall i :: 0 <= i < |r| ==> IsHexDigit(r[i])
    ensures |r| == |s| || !IsHexDigit(s[|r|])
  {
    if |s| == 0 || !IsHexDigit(s[0]) then ""
    else [s[0]] + HexDigitPrefix(s[1..])
  }

  function HexValue(s: string): nat
    requires forall i :: 0 <= i < |s| ==> IsHexDigit(s[i])
  {
    if |s| == 0 then 0 else 16 * HexValue(s[..|s| - 1]) + HexDigitValue(s[|s| - 1])
  }

  /** `0x` or `0X`, on which `parseInt` without a radix reads hexadecimal. */
  predicate HexPrefixed(s: string) {
    |s| >= 2 && s[0] == '0' && (s[1] == 'x' || s[1] == 'X')
  }

  /** `parseInt(getArgValue('--limit') || '0')` as far as the exporter uses
      it: leading white space is skipped, then an optional sign; `0x` or `0X`
      switches to hexadecimal digits, otherwise decimal digits are read, as
      many as there are. The result is the positive value, or 0 when it is
      zero, negative or NaN (no digits), all of which mean "no limit". */
  function ParseLimit(v: Option<string>): (n: nat)
    ensures v.None? || v.value == "" ==> n == 0
    ensures v.Some? && StartsWith(TrimStart(v.value), "-") ==> n == 0
  {
    if v.None? || v.value == "" then 0
    else
      var t := TrimStart(v.value);
      if StartsWith(t, "-") then 0
      else
        var u := if StartsWith(t, "+") then t[1..] else t;
        if HexPrefixed(u) then HexValue(HexDigitPrefix(u[2..]))
        else DecimalValue(DigitPrefix(u))
  }

  /** A limit written out in decimal reads back as itself. */
  lemma ParseLimitOfNumber(n: nat)
    ensures ParseLimit(Some(NatToString(n))) == n
  {
    var s := NatToString(n);
    assert !IsSpace(s[0]);
    assert TrimStart(s) == s;
    assert !HexPrefixed(s) by {
      if |s| >= 2 {
        assert IsDigit(s[1]);
      }
    }
    assert DigitPrefix(s) == s;
    DecimalOfNatToString(n);
  }

  /** A string that does not start with white space is its own TrimStart. */
  lemma TrimStartKeeps(s: string)
    requires |s| > 0 && !IsSpace(s[0])
    ensures TrimStart(s) == s
  {
  }

  lemma HexDigitPrefixAll(digits: string)
    requires forall i :: 0 <= i < |digits| ==> IsHexDigit(digits[i])
    ensures HexDigitPrefix(digits) == digits
  {
  }

  /** What ParseLimit reads once white space and sign are settled. */
  lemma ParseLimitUnsigned(s: string)
    requires |s| > 0 && !IsSpace(s[0]) && s[0] != '-' && s[0] != '+'
    ensures ParseLimit(Some(s)) == (if HexPrefixed(s) then HexValue(HexDigitPrefix(s[2..]))
                                    else DecimalValue(DigitPrefix(s)))
  {
    TrimStartKeeps(s);
  }

  /** A `+` in front of the number changes nothing. */
  lemma ParseLimitPlus(s: string)
    requires |s| > 0 && !IsSpace(s[0]) && s[0] != '-' && s[0] != '+'
    ensures ParseLimit(Some(['+'] + s)) == ParseLimit(Some(s))
  {
    var p := ['+'] + s;
    TrimStartKeeps(p);
    TrimStartKeeps(s);
    assert p[1..] == s;
  }

  /** A `-` in front of anything means no limit. */
  lemma ParseLimitMinus(s: string)
    ensures ParseLimit(Some(['-'] + s)) == 0
  {
    TrimStartKeeps(['-'] + s);
  }

  /** A limit written as `0x` or `0X` and hexadecimal digits reads as its
      hexadecimal value (a `+` in front changes nothing, by ParseLimitPlus;
      a `-` means no limit, by ParseLimitMinus). */
  lemma ParseLimitOfHex(x: char, digits: string)
    requires x == 'x' || x == 'X'
    requires |digits| > 0 && forall i :: 0 <= i < |digits| ==> IsHexDigit(digits[i])
    ensures ParseLimit(Some(['0', x] + digits)) == HexValue(digits)
  {
    var s := ['0', x] + digits;
    HexDigitPrefixAll(digits);
    assert s[2..] == digits && HexPrefixed(s);
    assert |s| > 0 && !IsSpace(s[0]) && s[0] != '-' && s[0] != '+';
    hide *;
    ParseLimitUnsigned(s);
    assert HexDigitPrefix(s[2..]) == digits;
  }

  /** `--limit 0x10` processes the first 16 posts. */
  lemma ParseLimitSixteen()
    ensures ParseLimit(Some("0x10")) == 16
  {
    assert "0x10" == ['0', 'x'] + "10";
    ParseLimitOfHex('x', "10");
    assert "10"[..1] == "1";
  }

  /** `posts.slice(0, limit)` when the limit is positive. */
  function LimitPosts<T>(posts: seq<T>, limit: nat): (r: seq<T>)
    ensures limit == 0 ==> r == posts
    ensures limit > 0 ==> |r| == (if limit < |posts| then limit else |posts|)
    ensures r == posts[..|r|]
  {
    if limit > 0 && limit < |posts| then posts[..limit] else posts
  }

  // ---------------------------------------------------------------------
  // Dates

  /** `new Date(d).toISOString().split('T')[0]`, with the conversion to ISO
      text as the parameter `toIso` (`None` for an invalid date): the empty
      text stays empty, an invalid date is kept as written. */
  function FormatDate(d: string, toIso: string -> Option<string>): (r: string)
    ensures d == "" ==> r == ""
    ensures d != "" && toIso(d).None? ==> r == d
    ensures d != "" && toIso(d).Some? ==> 'T' !in r && StartsWith(toIso(d).value, r)
  {
    if d == "" then ""
    else match toIso(d)
      case None => d
      case Some(iso) =>
        var r := Split(iso, 'T')[0];
        assert StartsWith(iso, r) by { SplitHead(iso, 'T'); }
        r
  }

  lemma SplitHead(s: string, c: char)
    ensures StartsWith(s, Split(s, c)[0])
  {
  }

  /** A valid date formats as the calendar day of its ISO form. */
  lemma FormatDateIso(d: string, toIso: string -> Option<string>, day: string, time: string)
    requires d != "" && toIso(d) == Some(day + "T" + time) && 'T' !in day
    ensures FormatDate(d, toIso) == day
  {
    var iso := day + "T" + time;
    assert IndexOf(iso, 'T') == |day| by {
      assert iso[|day|] == 'T' && iso[..|day|] == day;
    }
    assert iso[..|day|] == day;
  }

  // ---------------------------------------------------------------------
  // Posts and documents

  /** A blog post as the CMS returns it; an absent optional text (content,
      image URL, social image, language) is the empty text. */
  datatype BlogPost = BlogPost(title: string, description: string, slug: string, date: string,
                               content: string, imageUrl: string, ogImageUrl: string, lang: string,
                               linked: seq<BlogPost>)

  /** A value of the translations table: a slug, or a flag. */
  datatype TValue = TText(s: string) | TFlag(b: bool)

  function FlagText(b: bool): string {
    if b then "true" else "false"
  }

  /** `key: "value"` with the value's double quotes escaped. */
  function QuotedLine(key: string, v: string): string {
    key + ": \"" + EscapeQuotes(v) + "\""
  }

  /** `key: value` with the value as it is. */
  function PlainLine(key: string, v: string): string {
    key + ": " + v
  }

  /** One entry of the translations table, indented by two spaces; a text is
      quoted but not escaped. */
  function TranslationLine(e: (string, TValue)): string {
    match e.1
    case TFlag(b) => "  " + e.0 + ": " + FlagText(b)
    case TText(s) => "  " + e.0 + ": \"" + s + "\""
  }

  function TranslationLines(t: Dict<TValue>): (r: seq<string>)
    ensures |r| == |t| && forall i :: 0 <= i < |t| ==> r[i] == TranslationLine(t[i])
  {
    seq(|t|, i requires 0 <= i < |t| => TranslationLine(t[i]))
  }

  /** The frontmatter lines, in order; a line whose source is absent or empty
      is left out. `locale` is the empty text when there is none. */
  function FrontmatterLines(post: BlogPost, locale: string, translations: Option<Dict<TValue>>,
                            isTranslated: Option<bool>, toIso: string -> Option<string>): (r: seq<string>)
    ensures |r| == 4 + (if post.ogImageUrl != "" then 1 else 0) + (if post.imageUrl != "" then 1 else 0)
                     + (if locale != "" then 2 else 0) + (if isTranslated.Some? then 1 else 0)
                     + (if translations.Some? then 1 + |translations.value| else 0)
    ensures r[0] == QuotedLine("title", post.title) && r[1] == QuotedLine("description", post.description)
    ensures locale != "" ==>
      QuotedLine("lang", locale) in r && PlainLine("uniqueSlug", ImportTranslations.UniqueSlug(locale, post.slug)) in r
    ensures translations.Some? ==>
      "translations:" in r && forall i :: 0 <= i < |translations.value| ==> TranslationLine(translations.value[i]) in r
  {
    [QuotedLine("title", post.title), QuotedLine("description", post.description)]
    + (if post.ogImageUrl != "" then [QuotedLine("ogImageUrl", post.ogImageUrl)] else [])
    + [PlainLine("date", FormatDate(post.date, toIso)), PlainLine("slug", post.slug)]
    + (if post.imageUrl != "" then [QuotedLine("image", post.imageUrl)] else [])
    + (if locale != "" then [QuotedLine("lang", locale), PlainLine("uniqueSlug", ImportTranslations.UniqueSlug(locale, post.slug))] else [])
    + (if isTranslated.Some? then [PlainLine("isTranslated", FlagText(isTranslated.value))] else [])
    + (if translations.Some? then ["translations:"] + TranslationLines(translations.value) else [])
  }

  /** The whole document: the frontmatter block, an empty line, the content
      and a final line break. */
  function GenerateMdx(post: BlogPost, locale: string, translations: Option<Dict<TValue>>,
                       isTranslated: Option<bool>, toIso: string -> Option<string>): (doc: string)
    ensures StartsWith(doc, Opening) && EndsWith(doc, "\n")
  {
    Opening + Join(FrontmatterLines(post, locale, translations, isTranslated, toIso), "\n") + Closing
    + ("\n" + post.content + "\n")
  }

  /** `<date>-<slug>.<locale>.mdx`; the date part is there only when the
      formatted date is not empty, the locale part only for a locale. */
  function GenerateFilename(post: BlogPost, locale: string, toIso: string -> Option<string>): (name: string)
    ensures EndsWith(name, ".mdx")
  {
    var date := FormatDate(post.date, toIso);
    (if date != "" then date + "-" else "") + post.slug + (if locale != "" then "." + locale else "") + ".mdx"
  }

  /** The importer reads the date, the slug and the language back from the
      name of every file the exporter writes: the date must format as
      `YYYY-MM-DD`, the locale be `xx` or `xx-YY`, and the slug be one line
      not ending in `.mdx`; for the English reference file the slug must not
      itself end like a language suffix. */
  lemma FilenameReadsBack(post: BlogPost, locale: string, toIso: string -> Option<string>)
    requires ImportTranslations.IsDateText(FormatDate(post.date, toIso))
    requires locale == "" || ImportTranslations.IsLangCode(locale)
    requires forall i :: 0 <= i < |post.slug| ==> !IsLineTerminator(post.slug[i])
    requires !EndsWith(post.slug, ".mdx")
    requires locale == "" ==> ImportTranslations.ExtractLang(post.slug + ".mdx").None?
    ensures var name := GenerateFilename(post, locale, toIso);
      ImportTranslations.ExtractSlugAndDate(name) == ImportTranslations.SlugAndDate(Some(FormatDate(post.date, toIso)), post.slug)
      && ImportTranslations.ExtractLang(name) == if locale == "" then None else Some(locale)
  {
    var date := FormatDate(post.date, toIso);
    assert GenerateFilename(post, locale, toIso) == date + "-" + (post.slug + ImportTranslations.NameTail(locale));
    hide *;
    ImportTranslations.DatedNameReadsBack(date, post.slug, locale);
  }

  /** Two different locale parts (none counts as one) give different name
      endings. */
  lemma LangPartDistinct(l1: string, l2: string)
    requires l1 != l2
    ensures ImportTranslations.NameTail(l1) != ImportTranslations.NameTail(l2)
  {
    var s1, s2 := ImportTranslations.NameTail(l1), ImportTranslations.NameTail(l2);
    if l1 != "" && l2 != "" {
      assert l1 == s1[1..|s1| - 4] && l2 == s2[1..|s2| - 4];
    } else {
      assert |s1| != |s2|;
    }
  }

  /** The English reference file and a locale's file are never the same
      file, and two locales give two files. */
  lemma FilenamesDistinct(post: BlogPost, l1: string, l2: string, toIso: string -> Option<string>)
    requires l1 != l2
    ensures GenerateFilename(post, l1, toIso) != GenerateFilename(post, l2, toIso)
  {
    hide FormatDate;
    var date := FormatDate(post.date, toIso);
    var p := (if date != "" then date + "-" else "") + post.slug;
    var t1, t2 := ImportTranslations.NameTail(l1), ImportTranslations.NameTail(l2);
    assert GenerateFilename(post, l1, toIso) == p + t1;
    assert GenerateFilename(post, l2, toIso) == p + t2;
    LangPartDistinct(l1, l2);
    hide *;
    assert (p + t1)[|p|..] == t1 && (p + t2)[|p|..] == t2;
  }

  // ---------------------------------------------------------------------
  // Reading an exported document back

  /** A key the importer reads back as written: not empty, one line, no
      colon and no surrounding white space. */
  predicate PlainKey(k: string) {
    |k| > 0 && ':' !in k && '\n' !in k && !IsSpace(k[0]) && !IsSpace(k[|k| - 1])
  }

  /** A value the exporter writes bare and the importer reads back as
      written: one line, no surrounding white space, no leading `"`. */
  predicate BareValue(v: string) {
    '\n' !in v && (v == [] || (!IsSpace(v[0]) && !IsSpace(v[|v| - 1]) && v[0] != '"'))
  }

  function TValueText(v: TValue): string {
    match v
    case TFlag(b) => FlagText(b)
    case TText(s) => s
  }

  /** The fields the importer reads off the translations table: each entry's
      key with its slug or flag as text, a later key overriding an earlier. */
  function TableFields(t: Dict<TValue>): (m: map<string, string>)
    ensures forall k :: k in m ==> exists i :: 0 <= i < |t| && t[i].0 == k
  {
    if |t| == 0 then map[]
    else
      var init := t[..|t| - 1];
      var m := TableFields(init);
      assert forall i :: 0 <= i < |init| ==> init[i] == t[i];
      m[t[|t| - 1].0 := TValueText(t[|t| - 1].1)]
  }

  /** The fields the importer reads from the frontmatter the exporter
      writes: each field under its own key, a quoted value still escaped (the
      importer does not unescape), the `translations` key with an empty value,
      and the table's entries beside the top-level keys (the importer does not
      nest). */
  function ExportedFields(post: BlogPost, locale: string, translations: Option<Dict<TValue>>,
                          isTranslated: Option<bool>, toIso: string -> Option<string>): map<string, string>
  {
    TopFields(post, locale, translations.Some?, isTranslated, toIso)
    + (if translations.Some? then TableFields(translations.value) else map[])
  }

  /** The top-level part of ExportedFields, in the order the exporter
      writes the lines. */
  function TopFields(post: BlogPost, locale: string, hasTable: bool, isTranslated: Option<bool>,
                     toIso: string -> Option<string>): map<string, string>
  {
    TopFront(post, toIso) + TopLocale(post, locale) + TopTranslated(isTranslated) + TopTable(hasTable)
  }

  /** The post's own fields: title, description, social image, date, slug
      and image. */
  function TopFront(post: BlogPost, toIso: string -> Option<string>): map<string, string> {
    map["title" := EscapeQuotes(post.title), "description" := EscapeQuotes(post.description)]
    + TopOg(post)
    + map["date" := FormatDate(post.date, toIso), "slug" := post.slug]
    + TopImage(post)
  }

  function TopOg(post: BlogPost): map<string, string> {
    if post.ogImageUrl != "" then map["ogImageUrl" := EscapeQuotes(post.ogImageUrl)] else map[]
  }

  function TopImage(post: BlogPost): map<string, string> {
    if post.imageUrl != "" then map["image" := EscapeQuotes(post.imageUrl)] else map[]
  }

  /** The `lang` and `uniqueSlug` fields, written only for a locale. */
  function TopLocale(post: BlogPost, locale: string): map<string, string> {
    if locale != "" then map["lang" := EscapeQuotes(locale), "uniqueSlug" := ImportTranslations.UniqueSlug(locale, post.slug)] else map[]
  }

  /** The `isTranslated` flag, written only when given. */
  function TopTranslated(isTranslated: Option<bool>): map<string, string> {
    if isTranslated.Some? then map["isTranslated" := FlagText(isTranslated.value)] else map[]
  }

  /** The `translations` key that opens the table, written only for a
      table. */
  function TopTable(hasTable: bool): map<string, string> {
    if hasTable then map["translations" := ""] else map[]
  }

  /** The keys the exporter writes at the top level of the frontmatter. */
  const TopKeys: set<string> :=
    {"title", "description", "ogImageUrl", "date", "slug", "image", "lang", "uniqueSlug", "isTranslated", "translations"}

  /** What a post must satisfy for its document to read back: quoted values on
      one line, bare values (date, slug, locale) one line without surrounding
      white space or leading quote, and table keys plain. */
  predicate ReadableExport(post: BlogPost, locale: string, translations: Option<Dict<TValue>>,
                           toIso: string -> Option<string>)
  {
    && '\n' !in post.title && '\n' !in post.description && '\n' !in post.ogImageUrl && '\n' !in post.imageUrl
    && BareValue(FormatDate(post.date, toIso)) && BareValue(post.slug) && BareValue(locale)
    && (translations.Some? ==> forall i :: 0 <= i < |translations.value| ==>
          PlainKey(translations.value[i].0)
          && (translations.value[i].1.TText? ==> '\n' !in translations.value[i].1.s))
  }

  /** The lines are safe to put between the delimiters and the importer's
      line reader makes `m` of them. */
  predicate ReadsAs(lines: seq<string>, m: map<string, string>) {
    SafeLines(lines) && FoldFields(ImportTranslations.ImportLine, lines) == m
  }

  lemma ReadsAsAppend(a: seq<string>, ma: map<string, string>, b: seq<string>, mb: map<string, string>)
    requires ReadsAs(a, ma) && ReadsAs(b, mb)
    ensures ReadsAs(a + b, ma + mb)
  {
    hide ImportTranslations.ImportLine, Split, Join, Trim;
    FoldFieldsAppend(ImportTranslations.ImportLine, a, b);
    assert SafeLines(a + b) by {
      forall i | 0 <= i < |a + b|
        ensures '\n' !in (a + b)[i] && ((a + b)[i] == [] || (a + b)[i][0] != '-')
      {
        if i >= |a| {
          assert (a + b)[i] == b[i - |a|];
        }
      }
    }
  }

  lemma ReadsAsNothing()
    ensures ReadsAs([], map[])
  {
  }

  lemma ReadsAsSingle(line: string, k: string, v: string)
    requires '\n' !in line && |line| > 0 && line[0] != '-'
    requires ImportTranslations.ImportLine(line) == Some((k, v))
    ensures ReadsAs([line], map[k := v])
  {
    hide ImportTranslations.ImportLine, Split, Join, Trim;
    SafeSingle(line);
    FoldFieldsSingle(ImportTranslations.ImportLine, line);
  }

  lemma SafeSingle(line: string)
    requires '\n' !in line && |line| > 0 && line[0] != '-'
    ensures SafeLines([line])
  {
  }

  /** A `key: "value"` line reads as the key and the escaped value. */
  lemma QuotedLineReads(key: string, v: string)
    requires PlainKey(key) && key[0] != '-' && '\n' !in v
    ensures ReadsAs([QuotedLine(key, v)], map[key := EscapeQuotes(v)])
  {
    hide ImportTranslations.ImportLine, Split, Join, Trim;
    var e := EscapeQuotes(v);
    ReplaceCharFree(v, '"', "\\\"", '\n');
    ImportTranslations.ImportQuotedLine(key, e);
    var line := QuotedLine(key, v);
    assert line[0] == key[0];
    assert '\n' !in line;
    ReadsAsSingle(line, key, e);
  }

  /** A `key: value` line with a bare value reads as the key and the value. */
  lemma PlainLineReads(key: string, v: string)
    requires PlainKey(key) && key[0] != '-' && BareValue(v)
    ensures ReadsAs([PlainLine(key, v)], map[key := v])
  {
    hide ImportTranslations.ImportLine, Split, Join, Trim;
    ImportTranslations.ImportPlainLine(key, v);
    var line := PlainLine(key, v);
    assert line[0] == key[0];
    assert '\n' !in line;
    ReadsAsSingle(line, key, v);
  }

  lemma FlagTextBare(b: bool)
    ensures BareValue(FlagText(b))
  {
  }

  /** The `translations:` header reads as that key with an empty value. */
  lemma TableHeaderReads()
    ensures ReadsAs(["translations:"], map["translations" := ""])
  {
    TableHeaderLine();
    hide *;
    ReadsAsSingle("translations:", "translations", "");
  }

  lemma TableHeaderLine()
    ensures ImportTranslations.ImportLine("translations:") == Some(("translations", ""))
  {
    var k := "translations";
    assert |k| > 0 && ':' !in k && !IsSpace(k[0]) && !IsSpace(k[|k| - 1]) by {
      TableKeyPlain();
    }
    assert k + ":" == "translations:" by {
      hide *;
    }
    assert ImportTranslations.StripDoubleQuotes("") == "";
    hide *;
    KeyValueOfBareKey(k);
    ImportTranslations.ImportLineIsKeyValue("translations:");
  }

  /** One entry of the table, indented, reads as its key and its text. */
  lemma TranslationLineReads(e: (string, TValue))
    requires PlainKey(e.0) && (e.1.TText? ==> '\n' !in e.1.s)
    ensures ReadsAs([TranslationLine(e)], map[e.0 := TValueText(e.1)])
  {
    match e.1
    case TFlag(b) =>
      assert TranslationLine(e) == "  " + e.0 + ": " + FlagText(b);
      hide *;
      FlagEntryReads(e.0, b);
    case TText(s) =>
      assert TranslationLine(e) == "  " + e.0 + ": \"" + s + "\"";
      hide *;
      TextEntryReads(e.0, s);
  }

  lemma FlagEntryReads(k: string, b: bool)
    requires PlainKey(k)
    ensures ReadsAs(["  " + k + ": " + FlagText(b)], map[k := FlagText(b)])
  {
    var v := FlagText(b);
    var line := "  " + k + ": " + v;
    assert ImportTranslations.StripDoubleQuotes(v) == v;
    assert !IsSpace(v[0]) && !IsSpace(v[|v| - 1]);
    assert '\n' !in line && line[0] == ' ';
    hide *;
    KeyValueOfNestedField(k, v);
    ImportTranslations.ImportLineIsKeyValue(line);
    ReadsAsSingle(line, k, v);
  }

  lemma TextEntryReads(k: string, s: string)
    requires PlainKey(k) && '\n' !in s
    ensures ReadsAs(["  " + k + ": \"" + s + "\""], map[k := s])
  {
    var line := "  " + k + ": \"" + s + "\"";
    assert '\n' !in line && line[0] == ' ';
    hide *;
    ImportTranslations.ImportNestedQuotedLine(k, s);
    ReadsAsSingle(line, k, s);
  }

  lemma {:induction false} TableLinesRead(t: Dict<TValue>)
    requires forall i :: 0 <= i < |t| ==> PlainKey(t[i].0) && (t[i].1.TText? ==> '\n' !in t[i].1.s)
    ensures ReadsAs(TranslationLines(t), TableFields(t))
    decreases |t|
  {
    if |t| == 0 {
      ReadsAsNothing();
    } else {
      var init, last := t[..|t| - 1], t[|t| - 1];
      assert TranslationLines(t) == TranslationLines(init) + [TranslationLine(last)];
      assert TableFields(t) == TableFields(init) + map[last.0 := TValueText(last.1)];
      assert forall i :: 0 <= i < |init| ==> init[i] == t[i];
      hide *;
      TableLinesRead(init);
      TranslationLineReads(last);
      ReadsAsAppend(TranslationLines(init), TableFields(init), [TranslationLine(last)], map[last.0 := TValueText(last.1)]);
    }
  }

  lemma TableKeyPlain()
    ensures PlainKey("translations")
  {
  }

  lemma TopKeysPlain()
    ensures PlainKey("title") && PlainKey("description") && PlainKey("ogImageUrl") && PlainKey("date")
      && PlainKey("slug") && PlainKey("image") && PlainKey("lang") && PlainKey("uniqueSlug")
      && PlainKey("isTranslated")
  {
  }

  lemma UniqueSlugBare(locale: string, slug: string)
    requires locale != "" && BareValue(locale) && BareValue(slug)
    ensures BareValue(ImportTranslations.UniqueSlug(locale, slug))
  {
    var u := ImportTranslations.UniqueSlug(locale, slug);
    if locale != "en" {
      assert u == locale + "-" + slug;
      assert u[0] == locale[0];
      assert u[|u| - 1] == if slug == [] then '-' else slug[|slug| - 1];
    }
  }

  /** Two lines the importer reads as two fields. */
  lemma PairReads(l1: string, k1: string, v1: string, l2: string, k2: string, v2: string)
    requires ReadsAs([l1], map[k1 := v1]) && ReadsAs([l2], map[k2 := v2])
    ensures ReadsAs([l1, l2], map[k1 := v1, k2 := v2])
  {
    hide ImportTranslations.ImportLine, Split, Join, Trim;
    assert [l1] + [l2] == [l1, l2];
    assert map[k1 := v1] + map[k2 := v2] == map[k1 := v1, k2 := v2];
    ReadsAsAppend([l1], map[k1 := v1], [l2], map[k2 := v2]);
  }

  /** The document the exporter writes for a post reads back, through the
      importer's frontmatter parser, as the post's fields and the content
      between an empty line and the final line break. */
  lemma ExportedDocumentReadsBack(post: BlogPost, locale: string, translations: Option<Dict<TValue>>,
                                  isTranslated: Option<bool>, toIso: string -> Option<string>)
    requires ReadableExport(post, locale, translations, toIso)
    ensures ImportTranslations.ParseSpec(GenerateMdx(post, locale, translations, isTranslated, toIso))
      == Some(ImportTranslations.Parsed(ExportedFields(post, locale, translations, isTranslated, toIso),
                                        "\n" + post.content + "\n"))
  {
    var lines := FrontmatterLines(post, locale, translations, isTranslated, toIso);
    assert GenerateMdx(post, locale, translations, isTranslated, toIso)
      == Opening + Join(lines, "\n") + Closing + ("\n" + post.content + "\n");
    assert |lines| >= 1;
    hide *;
    FrontmatterReads(post, locale, translations, isTranslated, toIso);
    DocumentReadsAs(lines, ExportedFields(post, locale, translations, isTranslated, toIso), "\n" + post.content + "\n");
  }

  /** The frontmatter lines are safe to frame and read as the exported
      fields. */
  lemma FrontmatterReads(post: BlogPost, locale: string, translations: Option<Dict<TValue>>,
                         isTranslated: Option<bool>, toIso: string -> Option<string>)
    requires ReadableExport(post, locale, translations, toIso)
    ensures ReadsAs(FrontmatterLines(post, locale, translations, isTranslated, toIso),
                    ExportedFields(post, locale, translations, isTranslated, toIso))
  {
    hide ImportTranslations.ImportLine, Split, Join, Trim, FoldFields, ReadsAs, QuotedLine, PlainLine, EscapeQuotes,
      FormatDate, ImportTranslations.UniqueSlug, TranslationLines, TableFields, TranslationLine, FlagText;
    var date := FormatDate(post.date, toIso);
    var uniq := ImportTranslations.UniqueSlug(locale, post.slug);
    TopKeysPlain();
    var s1 := [QuotedLine("title", post.title), QuotedLine("description", post.description)];
    var m1 := map["title" := EscapeQuotes(post.title), "description" := EscapeQuotes(post.description)];
    QuotedPairReads("title", post.title, "description", post.description);
    var s2 := if post.ogImageUrl != "" then [QuotedLine("ogImageUrl", post.ogImageUrl)] else [];
    var m2 := if post.ogImageUrl != "" then map["ogImageUrl" := EscapeQuotes(post.ogImageUrl)] else map[];
    OptionalQuotedReads("ogImageUrl", post.ogImageUrl);
    var s3 := [PlainLine("date", date), PlainLine("slug", post.slug)];
    var m3 := map["date" := date, "slug" := post.slug];
    PlainPairReads("date", date, "slug", post.slug);
    var s4 := if post.imageUrl != "" then [QuotedLine("image", post.imageUrl)] else [];
    var m4 := if post.imageUrl != "" then map["image" := EscapeQuotes(post.imageUrl)] else map[];
    OptionalQuotedReads("image", post.imageUrl);
    var s5 := if locale != "" then [QuotedLine("lang", locale), PlainLine("uniqueSlug", uniq)] else [];
    var m5 := if locale != "" then map["lang" := EscapeQuotes(locale), "uniqueSlug" := uniq] else map[];
    LocaleLinesRead(locale, post.slug);
    var s6 := if isTranslated.Some? then [PlainLine("isTranslated", FlagText(isTranslated.value))] else [];
    var m6 := if isTranslated.Some? then map["isTranslated" := FlagText(isTranslated.value)] else map[];
    FlagLineReads(isTranslated);
    var s7 := if translations.Some? then ["translations:"] else [];
    var m7 := if translations.Some? then map["translations" := ""] else map[];
    var s8 := if translations.Some? then TranslationLines(translations.value) else [];
    var m8 := if translations.Some? then TableFields(translations.value) else map[];
    TableReads(translations);
    var lines := FrontmatterLines(post, locale, translations, isTranslated, toIso);
    var s78 := if translations.Some? then ["translations:"] + TranslationLines(translations.value) else [];
    assert lines == s1 + s2 + s3 + s4 + s5 + s6 + s78;
    assert s78 == s7 + s8;
    assert TopFront(post, toIso) == m1 + m2 + m3 + m4;
    assert TopLocale(post, locale) == m5 && TopTranslated(isTranslated) == m6 && TopTable(translations.Some?) == m7;
    assert ExportedFields(post, locale, translations, isTranslated, toIso) == m1 + m2 + m3 + m4 + m5 + m6 + m7 + m8;
    hide *;
    ReadsAsAppend(s1, m1, s2, m2);
    ReadsAsAppend(s1 + s2, m1 + m2, s3, m3);
    ReadsAsAppend(s1 + s2 + s3, m1 + m2 + m3, s4, m4);
    ReadsAsAppend(s1 + s2 + s3 + s4, m1 + m2 + m3 + m4, s5, m5);
    ReadsAsAppend(s1 + s2 + s3 + s4 + s5, m1 + m2 + m3 + m4 + m5, s6, m6);
    ReadsAsAppend(s1 + s2 + s3 + s4 + s5 + s6, m1 + m2 + m3 + m4 + m5 + m6, s7, m7);
    ReadsAsAppend(s1 + s2 + s3 + s4 + s5 + s6 + s7, m1 + m2 + m3 + m4 + m5 + m6 + m7, s8, m8);
    AppendAssoc(s1 + s2 + s3 + s4 + s5 + s6, s7, s8);
  }

  lemma QuotedPairReads(k1: string, v1: string, k2: string, v2: string)
    requires PlainKey(k1) && k1[0] != '-' && '\n' !in v1
    requires PlainKey(k2) && k2[0] != '-' && '\n' !in v2
    ensures ReadsAs([QuotedLine(k1, v1), QuotedLine(k2, v2)], map[k1 := EscapeQuotes(v1), k2 := EscapeQuotes(v2)])
  {
    QuotedLineReads(k1, v1);
    QuotedLineReads(k2, v2);
    PairReads(QuotedLine(k1, v1), k1, EscapeQuotes(v1), QuotedLine(k2, v2), k2, EscapeQuotes(v2));
  }

  lemma PlainPairReads(k1: string, v1: string, k2: string, v2: string)
    requires PlainKey(k1) && k1[0] != '-' && BareValue(v1)
    requires PlainKey(k2) && k2[0] != '-' && BareValue(v2)
    ensures ReadsAs([PlainLine(k1, v1), PlainLine(k2, v2)], map[k1 := v1, k2 := v2])
  {
    PlainLineReads(k1, v1);
    PlainLineReads(k2, v2);
    PairReads(PlainLine(k1, v1), k1, v1, PlainLine(k2, v2), k2, v2);
  }

  /** A quoted line written only for a non-empty value. */
  lemma OptionalQuotedReads(key: string, v: string)
    requires PlainKey(key) && key[0] != '-' && '\n' !in v
    ensures ReadsAs(if v != "" then [QuotedLine(key, v)] else [], if v != "" then map[key := EscapeQuotes(v)] else map[])
  {
    if v != "" {
      QuotedLineReads(key, v);
    } else {
      ReadsAsNothing();
    }
  }

  /** The `lang` and `uniqueSlug` lines, written only for a locale. */
  lemma LocaleLinesRead(locale: string, slug: string)
    requires BareValue(locale) && BareValue(slug)
    ensures var uniq := ImportTranslations.UniqueSlug(locale, slug);
      ReadsAs(if locale != "" then [QuotedLine("lang", locale), PlainLine("uniqueSlug", uniq)] else [],
              if locale != "" then map["lang" := EscapeQuotes(locale), "uniqueSlug" := uniq] else map[])
  {
    var uniq := ImportTranslations.UniqueSlug(locale, slug);
    TopKeysPlain();
    if locale != "" {
      QuotedLineReads("lang", locale);
      UniqueSlugBare(locale, slug);
      PlainLineReads("uniqueSlug", uniq);
      PairReads(QuotedLine("lang", locale), "lang", EscapeQuotes(locale), PlainLine("uniqueSlug", uniq), "uniqueSlug", uniq);
    } else {
      ReadsAsNothing();
    }
  }

  /** The `isTranslated` line, written only when the flag is given. */
  lemma FlagLineReads(isTranslated: Option<bool>)
    ensures ReadsAs(if isTranslated.Some? then [PlainLine("isTranslated", FlagText(isTranslated.value))] else [],
                    if isTranslated.Some? then map["isTranslated" := FlagText(isTranslated.value)] else map[])
  {
    if isTranslated.Some? {
      TopKeysPlain();
      FlagTextBare(isTranslated.value);
      PlainLineReads("isTranslated", FlagText(isTranslated.value));
    } else {
      ReadsAsNothing();
    }
  }

  /** The `translations:` header and the table's lines, written only for a
      table. */
  lemma TableReads(translations: Option<Dict<TValue>>)
    requires translations.Some? ==> forall i :: 0 <= i < |translations.value| ==>
      PlainKey(translations.value[i].0) && (translations.value[i].1.TText? ==> '\n' !in translations.value[i].1.s)
    ensures ReadsAs(if translations.Some? then ["translations:"] else [],
                    if translations.Some? then map["translations" := ""] else map[])
    ensures ReadsAs(if translations.Some? then TranslationLines(translations.value) else [],
                    if translations.Some? then TableFields(translations.value) else map[])
  {
    if translations.Some? {
      TableHeaderReads();
      TableLinesRead(translations.value);
    } else {
      ReadsAsNothing();
    }
  }

  /** With no key repeated, every entry of the table is read as its own
      text. */
  lemma {:induction false} TableFieldsKeyed(t: Dict<TValue>)
    requires Keyed(t)
    ensures forall i :: 0 <= i < |t| ==> t[i].0 in TableFields(t) && TableFields(t)[t[i].0] == TValueText(t[i].1)
    decreases |t|
  {
    if |t| > 0 {
      var init := t[..|t| - 1];
      assert Keyed(init) by {
        forall i, j | 0 <= i < j < |init| ensures init[i].0 != init[j].0 {
          assert init[i] == t[i] && init[j] == t[j];
        }
      }
      TableFieldsKeyed(init);
      forall i | 0 <= i < |t| ensures t[i].0 in TableFields(t) && TableFields(t)[t[i].0] == TValueText(t[i].1) {
        if i < |t| - 1 {
          assert init[i] == t[i];
          assert t[i].0 != t[|t| - 1].0;
        }
      }
    }
  }

  /** The top-level fields of an exported document, for a post whose quoted
      values have no `"`. */
  lemma TopFieldsOfPost(post: BlogPost, locale: string, hasTable: bool, isTranslated: Option<bool>,
                        toIso: string -> Option<string>)
    requires '"' !in post.title && '"' !in post.description && '"' !in locale
    ensures var m := TopFields(post, locale, hasTable, isTranslated, toIso);
      && m.Keys <= TopKeys
      && "title" in m && m["title"] == post.title
      && "description" in m && m["description"] == post.description
      && "date" in m && m["date"] == FormatDate(post.date, toIso)
      && "slug" in m && m["slug"] == post.slug
      && ("lang" in m <==> locale != "") && ("uniqueSlug" in m <==> locale != "")
      && (locale != "" ==> m["lang"] == locale && m["uniqueSlug"] == ImportTranslations.UniqueSlug(locale, post.slug))
      && ("isTranslated" in m <==> isTranslated.Some?)
      && (isTranslated.Some? ==> m["isTranslated"] == FlagText(isTranslated.value))
      && ("translations" in m <==> hasTable)
  {
    hide *;
    TopFieldsKeys(post, locale, hasTable, isTranslated, toIso);
    TopFieldsFixed(post, locale, hasTable, isTranslated, toIso);
    TopFieldsLocale(post, locale, hasTable, isTranslated, toIso);
    TopFieldsFlags(post, locale, hasTable, isTranslated, toIso);
  }

  lemma TopFieldsKeys(post: BlogPost, locale: string, hasTable: bool, isTranslated: Option<bool>,
                      toIso: string -> Option<string>)
    ensures TopFields(post, locale, hasTable, isTranslated, toIso).Keys <= TopKeys
  {
    var front, loc := TopFront(post, toIso), TopLocale(post, locale);
    var tr, tb := TopTranslated(isTranslated), TopTable(hasTable);
    assert TopFields(post, locale, hasTable, isTranslated, toIso) == front + loc + tr + tb;
    TopFrontKeys(post, toIso);
    assert loc.Keys <= {"lang", "uniqueSlug"} by {
      hide EscapeQuotes, ImportTranslations.UniqueSlug;
    }
    assert tr.Keys <= {"isTranslated"} && tb.Keys <= {"translations"} by {
      hide FlagText;
    }
    hide *;
  }

  lemma TopFrontKeys(post: BlogPost, toIso: string -> Option<string>)
    ensures TopFront(post, toIso).Keys <= {"title", "description", "ogImageUrl", "date", "slug", "image"}
  {
    hide EscapeQuotes, FormatDate;
  }

  lemma TopFieldsFixed(post: BlogPost, locale: string, hasTable: bool, isTranslated: Option<bool>,
                       toIso: string -> Option<string>)
    requires '"' !in post.title && '"' !in post.description
    ensures var m := TopFields(post, locale, hasTable, isTranslated, toIso);
      && "title" in m && m["title"] == post.title
      && "description" in m && m["description"] == post.description
      && "date" in m && m["date"] == FormatDate(post.date, toIso)
      && "slug" in m && m["slug"] == post.slug
  {
    var front, loc := TopFront(post, toIso), TopLocale(post, locale);
    var tr, tb := TopTranslated(isTranslated), TopTable(hasTable);
    assert TopFields(post, locale, hasTable, isTranslated, toIso) == front + loc + tr + tb;
    TopFrontFixed(post, toIso);
    TopFixedApart(post, locale, hasTable, isTranslated);
    EscapeQuoteFree(post.title);
    EscapeQuoteFree(post.description);
    hide *;
  }

  lemma TopFieldsLocale(post: BlogPost, locale: string, hasTable: bool, isTranslated: Option<bool>,
                        toIso: string -> Option<string>)
    requires '"' !in locale
    ensures var m := TopFields(post, locale, hasTable, isTranslated, toIso);
      && ("lang" in m <==> locale != "") && ("uniqueSlug" in m <==> locale != "")
      && (locale != "" ==> m["lang"] == locale && m["uniqueSlug"] == ImportTranslations.UniqueSlug(locale, post.slug))
  {
    var front, loc := TopFront(post, toIso), TopLocale(post, locale);
    var tr, tb := TopTranslated(isTranslated), TopTable(hasTable);
    assert TopFields(post, locale, hasTable, isTranslated, toIso) == front + loc + tr + tb;
    assert ("lang" in loc <==> locale != "") && ("uniqueSlug" in loc <==> locale != "");
    assert locale != "" ==> loc["lang"] == EscapeQuotes(locale) && loc["uniqueSlug"] == ImportTranslations.UniqueSlug(locale, post.slug);
    TopLocaleApart(post, hasTable, isTranslated, toIso);
    EscapeQuoteFree(locale);
    hide *;
  }

  lemma TopFieldsFlags(post: BlogPost, locale: string, hasTable: bool, isTranslated: Option<bool>,
                       toIso: string -> Option<string>)
    ensures var m := TopFields(post, locale, hasTable, isTranslated, toIso);
      && ("isTranslated" in m <==> isTranslated.Some?)
      && (isTranslated.Some? ==> m["isTranslated"] == FlagText(isTranslated.value))
      && ("translations" in m <==> hasTable)
  {
    var front, loc := TopFront(post, toIso), TopLocale(post, locale);
    var tr, tb := TopTranslated(isTranslated), TopTable(hasTable);
    assert TopFields(post, locale, hasTable, isTranslated, toIso) == front + loc + tr + tb;
    assert ("isTranslated" in tr <==> isTranslated.Some?) && ("translations" in tb <==> hasTable);
    assert isTranslated.Some? ==> tr["isTranslated"] == FlagText(isTranslated.value);
    TopFlagsApart(post, locale, hasTable, isTranslated, toIso);
    hide *;
  }

  /** The title, description, date and slug are written in the post's own
      part of the fields. */
  lemma TopFrontFixed(post: BlogPost, toIso: string -> Option<string>)
    ensures var front := TopFront(post, toIso);
      && "title" in front && front["title"] == EscapeQuotes(post.title)
      && "description" in front && front["description"] == EscapeQuotes(post.description)
      && "date" in front && front["date"] == FormatDate(post.date, toIso)
      && "slug" in front && front["slug"] == post.slug
  {
    hide EscapeQuotes, FormatDate;
  }

  /** No later part of the fields writes the title, description, date or
      slug again. */
  lemma TopFixedApart(post: BlogPost, locale: string, hasTable: bool, isTranslated: Option<bool>)
    ensures var loc, tr, tb := TopLocale(post, locale), TopTranslated(isTranslated), TopTable(hasTable);
      && "title" !in loc && "title" !in tr && "title" !in tb
      && "description" !in loc && "description" !in tr && "description" !in tb
      && "date" !in loc && "date" !in tr && "date" !in tb
      && "slug" !in loc && "slug" !in tr && "slug" !in tb
  {
    hide EscapeQuotes, ImportTranslations.UniqueSlug, FlagText;
  }

  /** `lang` and `uniqueSlug` are written by no other part of the fields. */
  lemma TopLocaleApart(post: BlogPost, hasTable: bool, isTranslated: Option<bool>, toIso: string -> Option<string>)
    ensures var front, tr, tb := TopFront(post, toIso), TopTranslated(isTranslated), TopTable(hasTable);
      && "lang" !in front && "lang" !in tr && "lang" !in tb
      && "uniqueSlug" !in front && "uniqueSlug" !in tr && "uniqueSlug" !in tb
  {
    TopFrontKeys(post, toIso);
    hide EscapeQuotes, FormatDate, FlagText, TopFront;
  }

  /** `isTranslated` and `translations` are written by no other part of the
      fields. */
  lemma TopFlagsApart(post: BlogPost, locale: string, hasTable: bool, isTranslated: Option<bool>,
                      toIso: string -> Option<string>)
    ensures var front, loc, tr := TopFront(post, toIso), TopLocale(post, locale), TopTranslated(isTranslated);
      && "isTranslated" !in front && "isTranslated" !in loc
      && "translations" !in front && "translations" !in loc && "translations" !in tr
  {
    TopFrontKeys(post, toIso);
    hide EscapeQuotes, FormatDate, ImportTranslations.UniqueSlug, FlagText, TopFront;
  }

  /** What the importer finds in an exported document's fields, for a post
      whose quoted values have no `"` and whose table keys stay clear of the
      top-level keys: the title, description, date and slug as written;
      `lang` and `uniqueSlug` exactly when there is a locale; `isTranslated`
      exactly when the flag is given; `translations` exactly when there is a
      table; and, when no table key repeats, every entry's slug or flag. */
  lemma ExportedFieldsOfPost(post: BlogPost, locale: string, translations: Option<Dict<TValue>>,
                             isTranslated: Option<bool>, toIso: string -> Option<string>)
    requires '"' !in post.title && '"' !in post.description && '"' !in locale
    requires translations.Some? ==> forall i :: 0 <= i < |translations.value| ==> translations.value[i].0 !in TopKeys
    ensures var m := ExportedFields(post, locale, translations, isTranslated, toIso);
      && "title" in m && m["title"] == post.title
      && "description" in m && m["description"] == post.description
      && "date" in m && m["date"] == FormatDate(post.date, toIso)
      && "slug" in m && m["slug"] == post.slug
      && ("lang" in m <==> locale != "") && ("uniqueSlug" in m <==> locale != "")
      && (locale != "" ==> m["lang"] == locale && m["uniqueSlug"] == ImportTranslations.UniqueSlug(locale, post.slug))
      && ("isTranslated" in m <==> isTranslated.Some?)
      && (isTranslated.Some? ==> m["isTranslated"] == FlagText(isTranslated.value))
      && ("translations" in m <==> translations.Some?)
      && (translations.Some? && Keyed(translations.value) ==>
            forall i :: 0 <= i < |translations.value| ==>
              translations.value[i].0 in m && m[translations.value[i].0] == TValueText(translations.value[i].1))
  {
    hide TopFields, TableFields;
    var top := TopFields(post, locale, translations.Some?, isTranslated, toIso);
    var table := if translations.Some? then TableFields(translations.value) else map[];
    assert ExportedFields(post, locale, translations, isTranslated, toIso) == top + table;
    TopFieldsOfPost(post, locale, translations.Some?, isTranslated, toIso);
    assert forall k :: k in table ==> k !in TopKeys;
    if translations.Some? && Keyed(translations.value) {
      TableFieldsKeyed(translations.value);
    }
  }

  lemma AppendAssoc(a: seq<string>, b: seq<string>, c: seq<string>)
    ensures a + b + c == a + (b + c)
  {
  }

  /** Framed lines that read as `m` make a document the importer parses as
      `m` and the body. */
  lemma DocumentReadsAs(lines: seq<string>, m: map<string, string>, body: string)
    requires |lines| >= 1 && ReadsAs(lines, m)
    ensures ImportTranslations.ParseSpec(Opening + Join(lines, "\n") + Closing + body)
      == Some(ImportTranslations.Parsed(m, body))
  {
    DocumentMatches(lines, body);
    SplitJoin(lines, '\n');
  }

  // ---------------------------------------------------------------------
  // Locales

  /** What the locales endpoint gave: a failure (not OK, or the request or
      the decoding threw), a bare array of locale codes, or an object whose
      `data` array may be missing. */
  datatype LocalesResponse = Failed | ArrayBody(codes: seq<string>) | ObjectBody(data: Option<seq<string>>)

  const DefaultLocales: seq<string> := ["es", "zh", "de", "fr"]

  /** The codes other than `en`, in order. */
  function NonEnglish(codes: seq<string>): (r: seq<string>)
    ensures |r| <= |codes|
    ensures forall x :: x in r <==> x in codes && x != "en"
  {
    if |codes| == 0 then []
    else
      var last := codes[|codes| - 1];
      assert codes == codes[..|codes| - 1] + [last];
      NonEnglish(codes[..|codes| - 1]) + (if last != "en" then [last] else [])
  }

  function Codes(resp: LocalesResponse): seq<string> {
    match resp
    case Failed => []
    case ArrayBody(codes) => codes
    case ObjectBody(data) => if data.Some? then data.value else []
  }

  /** The locales to translate into: the codes the CMS lists other than
      English, or the default set when that leaves none or the request
      failed. */
  function FetchedLocales(resp: LocalesResponse): (r: seq<string>)
    ensures |r| > 0 && "en" !in r
    ensures (exists x :: x in Codes(resp) && x != "en") ==>
      forall x :: x in r <==> x in Codes(resp) && x != "en"
    ensures (forall x :: x in Codes(resp) ==> x == "en") ==> r == DefaultLocales
  {
    var codes := NonEnglish(Codes(resp));
    if |codes| > 0 then
      assert codes[0] in codes;
      codes
    else
      DefaultLocales
  }

  /** The languages the post's linked translations already have. */
  function ExistingLocales(linked: seq<BlogPost>): (r: seq<string>)
    ensures forall x :: x in r <==> x != "" && exists i :: 0 <= i < |linked| && linked[i].lang == x
  {
    if |linked| == 0 then []
    else
      var init := linked[..|linked| - 1];
      var last := linked[|linked| - 1];
      var r := ExistingLocales(init) + (if last.lang != "" then [last.lang] else []);
      assert forall i :: 0 <= i < |init| ==> init[i] == linked[i];
      r
  }

  /** Every locale under `--force`; otherwise those without a translation. */
  function LocalesToExport(locales: seq<string>, existing: seq<string>, force: bool): (r: seq<string>)
    ensures |r| <= |locales|
    ensures force ==> r == locales
    ensures !force ==> forall x :: x in r <==> x in locales && x !in existing
  {
    if force || |locales| == 0 then locales
    else
      var last := locales[|locales| - 1];
      assert locales == locales[..|locales| - 1] + [last];
      LocalesToExport(locales[..|locales| - 1], existing, force) + (if last !in existing then [last] else [])
  }

  /** Without repeated locales, the locales to export repeat none either. */
  lemma {:induction false} LocalesDistinct(locales: seq<string>, existing: seq<string>, force: bool, i: int, j: int)
    requires 0 <= i < j < |LocalesToExport(locales, existing, force)|
    requires forall a, b :: 0 <= a < b < |locales| ==> locales[a] != locales[b]
    ensures LocalesToExport(locales, existing, force)[i] != LocalesToExport(locales, existing, force)[j]
    decreases |locales|
  {
    if !force {
      var init := locales[..|locales| - 1];
      var last := locales[|locales| - 1];
      var r0 := LocalesToExport(init, existing, force);
      assert forall a, b :: 0 <= a < b < |init| ==> init[a] != init[b] by {
        forall a, b | 0 <= a < b < |init| ensures init[a] != init[b] {
          assert init[a] == locales[a] && init[b] == locales[b];
        }
      }
      if j < |r0| {
        LocalesDistinct(init, existing, force, i, j);
      } else {
        assert r0[i] in init;
        assert last !in init;
      }
    }
  }

  /** A post is passed over exactly when every locale already has a
      translation and `--force` is off, or when there are no locales at all;
      with `--force` and the locales the CMS gives, it never is. */
  lemma SkippedExactly(locales: seq<string>, existing: seq<string>, force: bool)
    ensures |LocalesToExport(locales, existing, force)| == 0
      <==> if force then |locales| == 0 else forall l :: l in locales ==> l in existing
  {
    var r := LocalesToExport(locales, existing, force);
    if !force && |r| > 0 {
      assert r[0] in r;
    }
  }

  // ---------------------------------------------------------------------
  // Translations table

  /** `{ en: slug }` then `<locale>-<slug>` under every locale, in order. */
  function TranslationsFor(post: BlogPost, locales: seq<string>): Dict<TValue> {
    PutAll(Single("en", TText(post.slug)), locales, (l: string) => l, (l: string) => TText(l + "-" + post.slug))
  }

  lemma TranslationsForSnoc(post: BlogPost, locales: seq<string>, l: string)
    ensures TranslationsFor(post, locales + [l]) == Put(TranslationsFor(post, locales), l, TText(l + "-" + post.slug))
  {
    PutAllSnoc(Single("en", TText(post.slug)), locales, l, (l: string) => l, (l: string) => TText(l + "-" + post.slug));
  }

  /** The table has no repeated key; it maps English to the post's slug and
      every locale to that locale's prefixed slug. */
  lemma TranslationsContent(post: BlogPost, locales: seq<string>)
    ensures Keyed(TranslationsFor(post, locales))
    ensures "en" !in locales ==> Find(TranslationsFor(post, locales), "en") == Some(TText(post.slug))
    ensures forall l :: l in locales ==> Find(TranslationsFor(post, locales), l) == Some(TText(l + "-" + post.slug))
  {
    var key := (l: string) => l;
    var value := (l: string) => TText(l + "-" + post.slug);
    var d := Single("en", TText(post.slug));
    PutAllKeyed(d, locales, key, value);
    PutAllFind(d, locales, key, value, "en");
    forall l | l in locales ensures Find(TranslationsFor(post, locales), l) == Some(TText(l + "-" + post.slug)) {
      PutAllFind(d, locales, key, value, l);
      var i := LastIndex(locales, l);
      assert key(locales[i]) == l;
    }
  }

  /** The position of the last occurrence of `x`. */
  function LastIndex(xs: seq<string>, x: string): (i: int)
    requires x in xs
    ensures 0 <= i < |xs| && xs[i] == x && forall j :: i < j < |xs| ==> xs[j] != x
  {
    if xs[|xs| - 1] == x then |xs| - 1
    else
      assert x in xs[..|xs| - 1] by {
        var k :| 0 <= k < |xs| && xs[k] == x;
        assert xs[..|xs| - 1][k] == x;
      }
      LastIndex(xs[..|xs| - 1], x)
  }

  // ---------------------------------------------------------------------
  // Writes

  /** The first linked translation in the given language. */
  function FindTranslation(linked: seq<BlogPost>, locale: string): (r: Option<BlogPost>)
    ensures r.None? <==> forall i :: 0 <= i < |linked| ==> linked[i].lang != locale
    ensures r.Some? ==> r.value in linked && r.value.lang == locale
  {
    if |linked| == 0 then None
    else if linked[0].lang == locale then Some(linked[0])
    else
      var r := FindTranslation(linked[1..], locale);
      assert forall i :: 1 <= i < |linked| ==> linked[i] == linked[1..][i - 1];
      r
  }

  /** The post a locale's file is generated from and its `isTranslated`
      flag: the existing translation (taking the parent's date when it has
      none) under `--force`, else the English post. */
  function LocaleVersion(post: BlogPost, locale: string, force: bool): (r: (BlogPost, bool))
    ensures r.1 <==> force && FindTranslation(post.linked, locale).Some?
    ensures !r.1 ==> r.0 == post
    ensures r.1 ==> r.0.lang == locale && r.0.slug == FindTranslation(post.linked, locale).value.slug
    ensures r.1 ==> (r.0.date == "" <==> FindTranslation(post.linked, locale).value.date == "" && post.date == "")
  {
    var t := FindTranslation(post.linked, locale);
    if t.Some? && force then
      (t.value.(date := if t.value.date != "" then t.value.date else post.date), true)
    else (post, false)
  }

  /** One file the exporter writes: the post whose slug and date name it,
      the post whose fields fill it, its locale (empty for the English
      reference), the translations table and the `isTranslated` flag. */
  datatype FileJob = FileJob(parent: BlogPost, version: BlogPost, locale: string,
                             translations: Dict<TValue>, isTranslated: Option<bool>)

  function JobName(job: FileJob, toIso: string -> Option<string>): string {
    GenerateFilename(job.parent, job.locale, toIso)
  }

  function JobDoc(job: FileJob, toIso: string -> Option<string>): string {
    GenerateMdx(job.version, job.locale, Some(job.translations), job.isTranslated, toIso)
  }

  /** The file written for one locale. */
  function LocaleJob(post: BlogPost, locale: string, t: Dict<TValue>, force: bool): (job: FileJob)
    ensures job.parent == post && job.locale == locale && job.translations == t
    ensures job.isTranslated == Some(LocaleVersion(post, locale, force).1)
  {
    var v := LocaleVersion(post, locale, force);
    FileJob(post, v.0, locale, t, Some(v.1))
  }

  function LocaleJobs(post: BlogPost, ls: seq<string>, t: Dict<TValue>, force: bool): (r: seq<FileJob>)
    ensures |r| == |ls| && forall j :: 0 <= j < |ls| ==> r[j] == LocaleJob(post, ls[j], t, force)
  {
    if |ls| == 0 then []
    else
      var r := LocaleJobs(post, ls[..|ls| - 1], t, force) + [LocaleJob(post, ls[|ls| - 1], t, force)];
      assert forall j :: 0 <= j < |ls| - 1 ==> ls[..|ls| - 1][j] == ls[j];
      r
  }

  /** The files one post asks for, in order: none when it is passed over,
      otherwise the English reference and then one per locale to export. */
  function PostJobs(post: BlogPost, locales: seq<string>, force: bool): seq<FileJob> {
    var toExport := LocalesToExport(locales, ExistingLocales(post.linked), force);
    if |toExport| == 0 then []
    else
      var t := TranslationsFor(post, locales);
      [FileJob(post, post, "", t, None)] + LocaleJobs(post, toExport, t, force)
  }

  /** The reference comes first and carries no `isTranslated` line; then one
      file per locale to export, in order, every file with the same table of
      slugs. */
  lemma PostJobsShape(post: BlogPost, locales: seq<string>, force: bool)
    ensures var toExport := LocalesToExport(locales, ExistingLocales(post.linked), force);
      var w := PostJobs(post, locales, force);
      (|toExport| == 0 ==> w == [])
      && (|toExport| > 0 ==>
        |w| == 1 + |toExport| && w[0] == FileJob(post, post, "", TranslationsFor(post, locales), None)
        && forall j :: 0 <= j < |toExport| ==>
          w[1 + j] == LocaleJob(post, toExport[j], TranslationsFor(post, locales), force))
  {
    var toExport := LocalesToExport(locales, ExistingLocales(post.linked), force);
    var w := PostJobs(post, locales, force);
    if |toExport| > 0 {
      var t := TranslationsFor(post, locales);
      var lw := LocaleJobs(post, toExport, t, force);
      assert w == [FileJob(post, post, "", t, None)] + lw;
      forall j | 0 <= j < |toExport| ensures w[1 + j] == LocaleJob(post, toExport[j], t, force) {
        assert w[1 + j] == lw[j];
      }
    }
  }

  /** Two distinct positions among the locales to export name two files. */
  lemma LocaleNamesDistinct(post: BlogPost, locales: seq<string>, force: bool, toIso: string -> Option<string>,
                            a: int, b: int)
    requires forall x, y :: 0 <= x < y < |locales| ==> locales[x] != locales[y]
    requires 0 <= a < b < |LocalesToExport(locales, ExistingLocales(post.linked), force)|
    ensures var toExport := LocalesToExport(locales, ExistingLocales(post.linked), force);
      GenerateFilename(post, toExport[a], toIso) != GenerateFilename(post, toExport[b], toIso)
  {
    var toExport := LocalesToExport(locales, ExistingLocales(post.linked), force);
    LocalesDistinct(locales, ExistingLocales(post.linked), force, a, b);
    FilenamesDistinct(post, toExport[a], toExport[b], toIso);
  }

  /** A locale to export never names the English reference file. */
  lemma LocaleNameNotReference(post: BlogPost, locales: seq<string>, force: bool, toIso: string -> Option<string>,
                               b: int)
    requires "" !in locales
    requires 0 <= b < |LocalesToExport(locales, ExistingLocales(post.linked), force)|
    ensures var toExport := LocalesToExport(locales, ExistingLocales(post.linked), force);
      GenerateFilename(post, "", toIso) != GenerateFilename(post, toExport[b], toIso)
  {
    var toExport := LocalesToExport(locales, ExistingLocales(post.linked), force);
    assert toExport[b] in toExport;
    FilenamesDistinct(post, "", toExport[b], toIso);
  }

  /** With distinct, non-empty locale codes, two files of one post have
      distinct names, so none of its writes overwrites another. */
  lemma PostJobNamesDistinct(post: BlogPost, locales: seq<string>, force: bool, toIso: string -> Option<string>,
                             i: int, j: int)
    requires forall a, b :: 0 <= a < b < |locales| ==> locales[a] != locales[b]
    requires "" !in locales
    requires 0 <= i < j < |PostJobs(post, locales, force)|
    ensures var w := PostJobs(post, locales, force);
      JobName(w[i], toIso) != JobName(w[j], toIso)
  {
    hide GenerateFilename, TranslationsFor, LocaleVersion, FindTranslation, JobDoc;
    hide PostJobs, LocaleJobs, LocaleJob, LocalesToExport, ExistingLocales;
    var toExport := LocalesToExport(locales, ExistingLocales(post.linked), force);
    var w := PostJobs(post, locales, force);
    PostJobsShape(post, locales, force);
    assert JobName(w[j], toIso) == GenerateFilename(post, toExport[j - 1], toIso);
    if i == 0 {
      LocaleNameNotReference(post, locales, force, toIso, j - 1);
    } else {
      assert JobName(w[i], toIso) == GenerateFilename(post, toExport[i - 1], toIso);
      LocaleNamesDistinct(post, locales, force, toIso, i - 1, j - 1);
    }
  }

  /** Writing files in order until one fails: the directory afterwards, the
      number written, and whether all went through. */
  function WriteAll(dir: map<string, string>, jobs: seq<FileJob>, fails: set<string>,
                    toIso: string -> Option<string>): (r: (map<string, string>, nat, bool))
    ensures r.1 <= |jobs| && (r.2 ==> r.1 == |jobs|)
  {
    hide JobDoc, JobName;
    if |jobs| == 0 then (dir, 0, true)
    else
      var w := WriteAll(dir, jobs[..|jobs| - 1], fails, toIso);
      var job := jobs[|jobs| - 1];
      if !w.2 || JobName(job, toIso) in fails then (w.0, w.1, false)
      else (w.0[JobName(job, toIso) := JobDoc(job, toIso)], w.1 + 1, true)
  }

  lemma WriteAllSnoc(dir: map<string, string>, jobs: seq<FileJob>, fails: set<string>,
                     toIso: string -> Option<string>, i: int)
    requires 0 <= i < |jobs|
    ensures var w := WriteAll(dir, jobs[..i], fails, toIso);
      WriteAll(dir, jobs[..i + 1], fails, toIso)
      == if !w.2 || JobName(jobs[i], toIso) in fails then (w.0, w.1, false)
         else (w.0[JobName(jobs[i], toIso) := JobDoc(jobs[i], toIso)], w.1 + 1, true)
  {
    hide JobDoc;
    assert jobs[..i + 1][..i] == jobs[..i];
  }

  /** Writing no file changes nothing; writing every file is the whole run. */
  lemma WriteAllEnds(dir: map<string, string>, jobs: seq<FileJob>, fails: set<string>,
                     toIso: string -> Option<string>)
    ensures WriteAll(dir, jobs[..0], fails, toIso) == (dir, 0, true)
    ensures WriteAll(dir, jobs[..|jobs|], fails, toIso) == WriteAll(dir, jobs, fails, toIso)
  {
    assert jobs[..0] == [];
    assert jobs[..|jobs|] == jobs;
  }

  /** Once a write has failed, nothing more is written. */
  lemma {:induction false} WriteAllStuck(dir: map<string, string>, jobs: seq<FileJob>, fails: set<string>,
                                         toIso: string -> Option<string>, i: int)
    requires 0 <= i <= |jobs| && !WriteAll(dir, jobs[..i], fails, toIso).2
    ensures WriteAll(dir, jobs, fails, toIso) == WriteAll(dir, jobs[..i], fails, toIso)
    decreases |jobs| - i
  {
    hide JobDoc;
    if i < |jobs| {
      WriteAllSnoc(dir, jobs, fails, toIso, i);
      WriteAllStuck(dir, jobs, fails, toIso, i + 1);
    } else {
      assert jobs[..i] == jobs;
    }
  }

  /** All files are written exactly when no name fails; otherwise the count
      is the position of the first failing name. */
  lemma {:induction false} WriteAllCount(dir: map<string, string>, jobs: seq<FileJob>, fails: set<string>,
                                         toIso: string -> Option<string>)
    ensures var w := WriteAll(dir, jobs, fails, toIso);
      (w.2 <==> forall i :: 0 <= i < |jobs| ==> JobName(jobs[i], toIso) !in fails)
      && (w.2 ==> w.1 == |jobs|)
      && (!w.2 ==> w.1 < |jobs| && JobName(jobs[w.1], toIso) in fails
                   && forall i :: 0 <= i < w.1 ==> JobName(jobs[i], toIso) !in fails)
    decreases |jobs|
  {
    hide JobDoc, JobName;
    if |jobs| > 0 {
      var init := jobs[..|jobs| - 1];
      var last := jobs[|jobs| - 1];
      var w0 := WriteAll(dir, init, fails, toIso);
      WriteAllSnoc(dir, jobs, fails, toIso, |jobs| - 1);
      assert jobs[..|jobs|] == jobs;
      WriteAllCount(dir, init, fails, toIso);
      hide WriteAll;
      assert forall i :: 0 <= i < |init| ==> init[i] == jobs[i];
      if !w0.2 {
        assert init[w0.1] == jobs[w0.1];
      } else if JobName(last, toIso) in fails {
        assert w0.1 == |jobs| - 1;
      }
    }
  }

  /** Every file written holds its document unless a later file of the same
      name replaced it. */
  lemma {:induction false} WriteAllStores(dir: map<string, string>, jobs: seq<FileJob>, fails: set<string>,
                                          toIso: string -> Option<string>, i: int)
    requires var w := WriteAll(dir, jobs, fails, toIso);
      0 <= i < w.1 && forall j :: i < j < w.1 ==> JobName(jobs[j], toIso) != JobName(jobs[i], toIso)
    ensures var w := WriteAll(dir, jobs, fails, toIso);
      JobName(jobs[i], toIso) in w.0 && w.0[JobName(jobs[i], toIso)] == JobDoc(jobs[i], toIso)
    decreases |jobs|
  {
    hide JobDoc, JobName;
    var init := jobs[..|jobs| - 1];
    var last := jobs[|jobs| - 1];
    var w0 := WriteAll(dir, init, fails, toIso);
    WriteAllSnoc(dir, jobs, fails, toIso, |jobs| - 1);
    assert jobs[..|jobs|] == jobs;
    hide WriteAll;
    if i < w0.1 {
      assert init[i] == jobs[i];
      forall j | i < j < w0.1 ensures JobName(init[j], toIso) != JobName(init[i], toIso) {
        assert init[j] == jobs[j];
      }
      WriteAllStores(dir, init, fails, toIso, i);
      if w0.2 && JobName(last, toIso) !in fails {
        assert JobName(last, toIso) != JobName(jobs[i], toIso);
      }
    } else {
      assert w0.2 && JobName(last, toIso) !in fails && i == |jobs| - 1;
    }
  }

  /** A name none of the files has keeps its old text, or stays absent. */
  lemma {:induction false} WriteAllElsewhere(dir: map<string, string>, jobs: seq<FileJob>, fails: set<string>,
                                             toIso: string -> Option<string>, k: string)
    requires forall i :: 0 <= i < |jobs| ==> JobName(jobs[i], toIso) != k
    ensures var w := WriteAll(dir, jobs, fails, toIso);
      (k in w.0 <==> k in dir) && (k in dir ==> w.0[k] == dir[k])
    decreases |jobs|
  {
    hide JobDoc;
    if |jobs| > 0 {
      hide WriteAll, JobName;
      var init := jobs[..|jobs| - 1];
      assert forall j :: 0 <= j < |init| ==> init[j] == jobs[j];
      WriteAllElsewhere(dir, init, fails, toIso, k);
      WriteAllSnoc(dir, jobs, fails, toIso, |jobs| - 1);
      assert jobs[..|jobs|] == jobs;
    }
  }

  // ---------------------------------------------------------------------
  // The export

  /** The translations table, filled in locale by locale. */
  method BuildTranslations(post: BlogPost, locales: seq<string>) returns (t: Dict<TValue>)
    ensures t == TranslationsFor(post, locales)
  {
    assert TranslationsFor(post, []) == Single("en", TText(post.slug));
    hide *;
    t := Single("en", TText(post.slug));
    assert locales[..0] == [];
    var i := 0;
    while i < |locales|
      invariant 0 <= i <= |locales|
      invariant t == TranslationsFor(post, locales[..i])
    {
      assert locales[..i + 1] == locales[..i] + [locales[i]];
      TranslationsForSnoc(post, locales[..i], locales[i]);
      t := Put(t, locales[i], TText(locales[i] + "-" + post.slug));
      i := i + 1;
    }
    assert locales[..i] == locales;
  }

  /** Writes the English reference and then each locale's file, stopping at
      the first write that fails. */
  method WritePostFiles(post: BlogPost, locales: seq<string>, toExport: seq<string>, t: Dict<TValue>,
                        force: bool, fails: set<string>, dir: map<string, string>,
                        toIso: string -> Option<string>)
    returns (d: map<string, string>, n: nat, ok: bool)
    requires toExport == LocalesToExport(locales, ExistingLocales(post.linked), force) && |toExport| > 0
    requires t == TranslationsFor(post, locales)
    ensures (d, n, ok) == WriteAll(dir, PostJobs(post, locales, force), fails, toIso)
  {
    ghost var jobs := PostJobs(post, locales, force);
    PostJobsShape(post, locales, force);
    WriteAllEnds(dir, jobs, fails, toIso);
    hide WriteAll, PostJobs, GenerateMdx, GenerateFilename, LocalesToExport, ExistingLocales, TranslationsFor,
      LocaleVersion, FindTranslation;
    var filename := GenerateFilename(post, "", toIso);
    WriteAllSnoc(dir, jobs, fails, toIso, 0);
    if filename in fails {
      WriteAllStuck(dir, jobs, fails, toIso, 1);
      return dir, 0, false;
    }
    d := dir[filename := GenerateMdx(post, "", Some(t), None, toIso)];
    n := 1;
    var j := 0;
    while j < |toExport|
      invariant 0 <= j <= |toExport|
      invariant (d, n, true) == WriteAll(dir, jobs[..1 + j], fails, toIso)
    {
      var locale := toExport[j];
      var v := LocaleVersion(post, locale, force);
      var localizedFilename := GenerateFilename(post, locale, toIso);
      WriteAllSnoc(dir, jobs, fails, toIso, 1 + j);
      if localizedFilename in fails {
        WriteAllStuck(dir, jobs, fails, toIso, 2 + j);
        return d, n, false;
      }
      d := d[localizedFilename := GenerateMdx(v.0, locale, Some(t), Some(v.1), toIso)];
      n := n + 1;
      j := j + 1;
    }
    ok := true;
  }

  /** One post's part of the export: whether it was passed over, and
      otherwise the directory, the files written and whether the post went
      through. */
  method ExportPost(post: BlogPost, locales: seq<string>, force: bool, fails: set<string>,
                    dir: map<string, string>, toIso: string -> Option<string>)
    returns (skipped: bool, d: map<string, string>, n: nat, ok: bool)
    ensures skipped <==> |LocalesToExport(locales, ExistingLocales(post.linked), force)| == 0
    ensures skipped ==> d == dir && n == 0 && ok
    ensures !skipped ==> (d, n, ok) == WriteAll(dir, PostJobs(post, locales, force), fails, toIso)
  {
    var existing := ExistingLocales(post.linked);
    var toExport := LocalesToExport(locales, existing, force);
    if |toExport| == 0 {
      return true, dir, 0, true;
    }
    var t := BuildTranslations(post, locales);
    skipped := false;
    d, n, ok := WritePostFiles(post, locales, toExport, t, force, fails, dir, toIso);
  }

  /** The totals the exporter prints: files generated, posts passed over,
      and the titles of the posts whose export failed. */
  datatype ExportReport = ExportReport(exported: nat, skipped: nat, failed: seq<string>)

  /** One post's step of the export, as a specification: a post with no
      locale to export is counted as passed over; otherwise its files are
      written until one fails, and a failure records its title. */
  function PostStep(state: (map<string, string>, ExportReport), post: BlogPost, locales: seq<string>,
                    force: bool, fails: set<string>, toIso: string -> Option<string>)
    : (r: (map<string, string>, ExportReport))
  {
    var rep := state.1;
    if |LocalesToExport(locales, ExistingLocales(post.linked), force)| == 0 then
      (state.0, rep.(skipped := rep.skipped + 1))
    else
      var w := WriteAll(state.0, PostJobs(post, locales, force), fails, toIso);
      (w.0, ExportReport(rep.exported + w.1, rep.skipped, rep.failed + (if w.2 then [] else [post.title])))
  }

  /** The export over a list of posts, as a specification. */
  function ExportRun(posts: seq<BlogPost>, locales: seq<string>, force: bool, fails: set<string>,
                     dir: map<string, string>, toIso: string -> Option<string>)
    : (r: (map<string, string>, ExportReport))
  {
    if |posts| == 0 then (dir, ExportReport(0, 0, []))
    else
      PostStep(ExportRun(posts[..|posts| - 1], locales, force, fails, dir, toIso), posts[|posts| - 1],
               locales, force, fails, toIso)
  }

  lemma ExportRunSnoc(posts: seq<BlogPost>, i: int, locales: seq<string>, force: bool, fails: set<string>,
                      dir: map<string, string>, toIso: string -> Option<string>)
    requires 0 <= i < |posts|
    ensures ExportRun(posts[..i + 1], locales, force, fails, dir, toIso)
      == PostStep(ExportRun(posts[..i], locales, force, fails, dir, toIso), posts[i], locales, force, fails, toIso)
  {
    assert posts[..i + 1][..i] == posts[..i];
  }

  lemma ExportRunEmpty(posts: seq<BlogPost>, locales: seq<string>, force: bool, fails: set<string>,
                       dir: map<string, string>, toIso: string -> Option<string>)
    ensures ExportRun(posts[..0], locales, force, fails, dir, toIso) == (dir, ExportReport(0, 0, []))
  {
    assert posts[..0] == [];
  }

  /** Exports one post and adds its outcome to the running totals. */
  method ExportOne(post: BlogPost, locales: seq<string>, force: bool, fails: set<string>,
                   toIso: string -> Option<string>, written: map<string, string>,
                   exported: nat, skippedCount: nat, failed: seq<string>)
    returns (written': map<string, string>, exported': nat, skippedCount': nat, failed': seq<string>)
    ensures (written', ExportReport(exported', skippedCount', failed'))
      == PostStep((written, ExportReport(exported, skippedCount, failed)), post, locales, force, fails, toIso)
  {
    hide JobDoc, PostJobs, WriteAll;
    var skipped, d, n, ok := ExportPost(post, locales, force, fails, written, toIso);
    written', exported', skippedCount', failed' := written, exported, skippedCount, failed;
    if skipped {
      skippedCount' := skippedCount + 1;
    } else {
      written' := d;
      exported' := exported + n;
      if !ok {
        failed' := failed + [post.title];
      } else {
        assert failed + [] == failed;
      }
    }
  }

  /** Exports the posts (the first `limit` of them when the limit is
      positive) into the directory `dir`; writing a name in `fails` throws,
      which ends that post's export and records its title. */
  method ExportTranslations(posts: seq<BlogPost>, limit: nat, locales: seq<string>, force: bool,
                            fails: set<string>, dir: map<string, string>, toIso: string -> Option<string>)
    returns (report: ExportReport, written: map<string, string>)
    ensures (written, report) == ExportRun(LimitPosts(posts, limit), locales, force, fails, dir, toIso)
  {
    var ps := LimitPosts(posts, limit);
    ExportRunEmpty(ps, locales, force, fails, dir, toIso);
    hide *;
    written := dir;
    var exported: nat, skippedCount: nat := 0, 0;
    var failed: seq<string> := [];
    var i := 0;
    while i < |ps|
      invariant 0 <= i <= |ps|
      invariant (written, ExportReport(exported, skippedCount, failed))
        == ExportRun(ps[..i], locales, force, fails, dir, toIso)
    {
      ExportRunSnoc(ps, i, locales, force, fails, dir, toIso);
      written, exported, skippedCount, failed :=
        ExportOne(ps[i], locales, force, fails, toIso, written, exported, skippedCount, failed);
      i := i + 1;
    }
    assert ps[..i] == ps;
    report := ExportReport(exported, skippedCount, failed);
  }

  /** Every post is counted at most once as passed over or failed, and each
      writes at most one file more than there are locales. */
  lemma {:induction false} ExportRunCounts(posts: seq<BlogPost>, locales: seq<string>, force: bool,
                                           fails: set<string>, dir: map<string, string>,
                                           toIso: string -> Option<string>)
    ensures var rep := ExportRun(posts, locales, force, fails, dir, toIso).1;
      rep.skipped + |rep.failed| <= |posts| && rep.exported <= |posts| * (1 + |locales|)
    decreases |posts|
  {
    if |posts| > 0 {
      var init := posts[..|posts| - 1];
      var post := posts[|posts| - 1];
      ExportRunCounts(init, locales, force, fails, dir, toIso);
      var st := ExportRun(init, locales, force, fails, dir, toIso);
      assert ExportRun(posts, locales, force, fails, dir, toIso) == PostStep(st, post, locales, force, fails, toIso);
      PostStepCounts(st, post, locales, force, fails, toIso);
      MulSucc(|posts| - 1, 1 + |locales|);
    }
  }

  /** One post adds at most one to the passed-over and failed posts, and at
      most one file more than there are locales. */
  lemma PostStepCounts(state: (map<string, string>, ExportReport), post: BlogPost, locales: seq<string>,
                       force: bool, fails: set<string>, toIso: string -> Option<string>)
    ensures var r := PostStep(state, post, locales, force, fails, toIso).1;
      r.skipped + |r.failed| <= state.1.skipped + |state.1.failed| + 1
      && r.exported <= state.1.exported + 1 + |locales|
  {
    hide JobDoc;
    PostJobsShape(post, locales, force);
    var w := PostJobs(post, locales, force);
    assert |w| <= 1 + |locales|;
    assert WriteAll(state.0, w, fails, toIso).1 <= |w|;
  }

  lemma MulSucc(n: nat, k: nat)
    ensures n * k + k == (n + 1) * k
  {
  }
}
