/** The translation importer: it reads translated `.mdx` files, works out the
    slug, date and language from each file name, and creates one CMS blog
    post per file unless the file is malformed or the post already exists. */
module ImportTranslations {
  import opened Text
  import opened FrontmatterBlock

  /** Surrounding double quotes are removed only when the value both starts
      and ends with one; a lone `"` becomes empty. Single quotes are kept. */
  function StripDoubleQuotes(v: string): (r: string)
    ensures StartsWith(v, "\"") && EndsWith(v, "\"") && |v| >= 2 ==> r == v[1..|v| - 1]
    ensures v == "\"" ==> r == ""
    ensures !(StartsWith(v, "\"") && EndsWith(v, "\"")) ==> r == v
  {
    if StartsWith(v, "\"") && EndsWith(v, "\"") then
      if |v| >= 2 then v[1..|v| - 1] else ""
    else v
  }

  /** One frontmatter line as the importer reads it: the line is split at
      every colon; it counts when the first piece is non-empty and there is at
      least one more piece; the value is the remaining pieces joined back with
      colons and trimmed; the key is the first piece trimmed. */
  function ImportLine(line: string): (r: Option<(string, string)>)
  {
    var parts := Split(line, ':');
    if parts[0] != "" && |parts| > 1 then
      Some((Trim(parts[0]), StripDoubleQuotes(Trim(Join(parts[1..], ":")))))
    else None
  }

  /** Split-and-rejoin is the same as cutting the line at its first colon: the
      importer and the sync script agree on keys and raw values. */
  lemma ImportLineIsKeyValue(line: string)
    ensures KeyValue(line).None? ==> ImportLine(line).None?
    ensures KeyValue(line).Some? ==>
      ImportLine(line) == Some((KeyValue(line).value.0, StripDoubleQuotes(KeyValue(line).value.1)))
  {
    var k := IndexOf(line, ':');
    var parts := Split(line, ':');
    if k >= 0 {
      var rest := line[k + 1..];
      assert parts == [line[..k]] + Split(rest, ':');
      assert parts[1..] == Split(rest, ':');
      JoinSplit(rest, ':');
    } else {
      assert parts == [line];
    }
  }

  /** A line whose raw value is a quoted text reads back as that text. */
  lemma ImportQuoted(line: string, key: string, v: string)
    requires KeyValue(line) == Some((key, "\"" + v + "\""))
    ensures ImportLine(line) == Some((key, v))
  {
    var q := "\"" + v + "\"";
    ImportLineIsKeyValue(line);
    assert q[1..|q| - 1] == v;
    assert StartsWith(q, "\"") && EndsWith(q, "\"");
  }

  /** A `key: "value"` line reads back as that key and the value between the
      quotes, when the key has no colon and no surrounding white space. */
  lemma ImportQuotedLine(key: string, v: string)
    requires |key| > 0 && ':' !in key && !IsSpace(key[0]) && !IsSpace(key[|key| - 1])
    ensures ImportLine(key + ": \"" + v + "\"") == Some((key, v))
  {
    var q := "\"" + v + "\"";
    assert key + ": \"" + v + "\"" == key + ": " + q;
    KeyValueOfField(key, q);
    ImportQuoted(key + ": " + q, key, v);
  }

  /** A `key: value` line with an unquoted value reads back as that value when
      the value has no surrounding white space and is not itself quoted. */
  lemma ImportPlainLine(key: string, v: string)
    requires |key| > 0 && ':' !in key && !IsSpace(key[0]) && !IsSpace(key[|key| - 1])
    requires v == [] || (!IsSpace(v[0]) && !IsSpace(v[|v| - 1]))
    requires !StartsWith(v, "\"")
    ensures ImportLine(key + ": " + v) == Some((key, v))
  {
    KeyValueOfField(key, v);
    ImportLineIsKeyValue(key + ": " + v);
  }

  /** A line indented by two spaces (a nested `key: "value"` entry) reads back
      as the same key and value. */
  lemma ImportNestedQuotedLine(key: string, v: string)
    requires |key| > 0 && ':' !in key && !IsSpace(key[0]) && !IsSpace(key[|key| - 1])
    ensures ImportLine("  " + key + ": \"" + v + "\"") == Some((key, v))
  {
    var q := "\"" + v + "\"";
    assert "  " + key + ": \"" + v + "\"" == "  " + key + ": " + q;
    KeyValueOfNestedField(key, q);
    ImportQuoted("  " + key + ": " + q, key, v);
  }

  datatype Parsed = Parsed(frontmatter: map<string, string>, body: string)

  /** Parses a file's text: `None` when the frontmatter block does not match;
      otherwise the lines of the block are read in order (a later key
      overwrites an earlier one) and the body is returned as it is. */
  method ParseFrontmatter(content: string) returns (r: Option<Parsed>)
    ensures r.None? <==> MatchBlock(content).None?
    ensures r.Some? ==>
      r.value.frontmatter == FoldFields(ImportLine, Split(MatchBlock(content).value.frontmatter, '\n'))
      && r.value.body == MatchBlock(content).value.body
  {
    var m := MatchBlock(content);
    if m.None? {
      return None;
    }
    var lines := Split(m.value.frontmatter, '\n');
    var fm: map<string, string> := map[];
    assert FoldFields(ImportLine, lines[..0]) == fm;
    hide Split, Join, Trim, FoldFields, MatchBlock;
    var i := 0;
    while i < |lines|
      invariant 0 <= i <= |lines|
      invariant fm == FoldFields(ImportLine, lines[..i])
    {
      FoldFieldsSnoc(ImportLine, lines, i);
      ghost var e := ImportLine(lines[i]);
      var parts := Split(lines[i], ':');
      if parts[0] != "" && |parts| > 1 {
        var value := Trim(Join(parts[1..], ":"));
        if StartsWith(value, "\"") && EndsWith(value, "\"") {
          value := if |value| >= 2 then value[1..|value| - 1] else "";
        }
        assert e == Some((Trim(parts[0]), value));
        fm := fm[Trim(parts[0]) := value];
      } else {
        assert e.None?;
      }
      i := i + 1;
    }
    assert lines[..i] == lines;
    return Some(Parsed(fm, m.value.body));
  }

  predicate IsLower(c: char) { 'a' <= c <= 'z' }
  predicate IsUpper(c: char) { 'A' <= c <= 'Z' }

  /** `xx` or `xx-YY`: the language codes the file-name pattern accepts. */
  predicate IsLangCode(l: string) {
    (|l| == 2 && IsLower(l[0]) && IsLower(l[1]))
    || (|l| == 5 && IsLower(l[0]) && IsLower(l[1]) && l[2] == '-' && IsUpper(l[3]) && IsUpper(l[4]))
  }

  /** The name ends with `.` + a language code of length `n` + `.mdx`. */
  predicate LangSuffix(name: string, n: int) {
    (n == 2 || n == 5) && |name| >= n + 5
    && name[|name| - n - 5] == '.' && IsLangCode(name[|name| - n - 4..|name| - 4])
    && name[|name| - 4..] == ".mdx"
  }

  /** The language code of a `name.xx.mdx` or `name.xx-YY.mdx` file name. */
  function ExtractLang(name: string): (r: Option<string>)
    ensures r.Some? <==> LangSuffix(name, 5) || LangSuffix(name, 2)
    ensures r.Some? ==> IsLangCode(r.value) && EndsWith(name, "." + r.value + ".mdx")
  {
    if LangSuffix(name, 5) then
      LangSuffixShape(name, 5);
      Some(name[|name| - 9..|name| - 4])
    else if LangSuffix(name, 2) then
      LangSuffixShape(name, 2);
      Some(name[|name| - 6..|name| - 4])
    else None
  }

  lemma LangSuffixShape(name: string, n: int)
    requires LangSuffix(name, n)
    ensures EndsWith(name, "." + name[|name| - n - 4..|name| - 4] + ".mdx")
  {
    assert name[|name| - n - 5..] == "." + name[|name| - n - 4..|name| - 4] + ".mdx";
  }

  /** The two suffix forms never both apply. */
  lemma LangSuffixExclusive(name: string)
    ensures !(LangSuffix(name, 5) && LangSuffix(name, 2))
  {
  }

  /** `.replace(/\.([a-z]{2}(-[A-Z]{2})?)\.mdx$/, '').replace(/\.mdx$/, '')` */
  function StripSuffixes(s: string): (r: string)
    ensures |r| <= |s| && r == s[..|r|]
  {
    var t := if LangSuffix(s, 5) then s[..|s| - 10] else if LangSuffix(s, 2) then s[..|s| - 7] else s;
    if EndsWith(t, ".mdx") then t[..|t| - 4] else t
  }

  /** The text up to the first line terminator, which is as far as a `.*`
      group reaches. */
  function FirstLine(s: string): (r: string)
    ensures |r| <= |s| && r == s[..|r|]
    ensures forall i :: 0 <= i < |r| ==> !IsLineTerminator(r[i])
    ensures |r| < |s| ==> IsLineTerminator(s[|r|])
  {
    if |s| == 0 || IsLineTerminator(s[0]) then "" else [s[0]] + FirstLine(s[1..])
  }

  predicate IsDateText(d: string) {
    |d| == 10 && IsDigit(d[0]) && IsDigit(d[1]) && IsDigit(d[2]) && IsDigit(d[3]) && d[4] == '-'
    && IsDigit(d[5]) && IsDigit(d[6]) && d[7] == '-' && IsDigit(d[8]) && IsDigit(d[9])
  }

  datatype SlugAndDate = SlugAndDate(date: Option<string>, slug: string)

  /** A leading `YYYY-MM-DD-` is the date; the slug is the rest of the first
      line without its language suffix and without `.mdx`. */
  function ExtractSlugAndDate(name: string): (r: SlugAndDate)
    ensures r.date.Some? <==> |name| >= 11 && IsDateText(name[..10]) && name[10] == '-'
    ensures r.date.Some? ==> r.date.value == name[..10] && r.slug == StripSuffixes(FirstLine(name[11..]))
    ensures r.date.None? ==> r.slug == StripSuffixes(FirstLine(name))
  {
    if |name| >= 11 && IsDateText(name[..10]) && name[10] == '-' then
      SlugAndDate(Some(name[..10]), StripSuffixes(FirstLine(name[11..])))
    else
      SlugAndDate(None, StripSuffixes(FirstLine(name)))
  }

  /** A text without line terminators is its own first line. */
  lemma FirstLineWhole(s: string)
    requires forall i :: 0 <= i < |s| ==> !IsLineTerminator(s[i])
    ensures FirstLine(s) == s
  {
  }

  /** A name that ends with `.` + a language code + `.mdx` has that code,
      and stripping its suffixes leaves what comes before them. */
  lemma LangSuffixOf(stem: string, l: string)
    requires IsLangCode(l)
    ensures ExtractLang(stem + "." + l + ".mdx") == Some(l)
    ensures !EndsWith(stem, ".mdx") ==> StripSuffixes(stem + "." + l + ".mdx") == stem
  {
    var name := stem + "." + l + ".mdx";
    var n := |name|;
    assert name[|stem|] == '.' && name[|stem| + 1..n - 4] == l && name[n - 4..] == ".mdx";
    assert LangSuffix(name, |l|);
    if |l| == 2 && |name| >= 10 {
      assert name[n - 9..n - 4][2] == name[n - 7] == '.';
    }
    assert name[..n - |l| - 5] == stem;
  }

  /** Text without dots in front of a name cannot make a language suffix. */
  lemma LangSuffixBehindPrefix(prefix: string, rest: string, n: int)
    requires '.' !in prefix
    ensures LangSuffix(prefix + rest, n) ==> LangSuffix(rest, n)
  {
    var name := prefix + rest;
    if LangSuffix(name, n) {
      var p := |name| - n - 5;
      assert name[p] == '.';
      assert forall i :: 0 <= i < |prefix| ==> name[i] == prefix[i];
      assert p >= |prefix|;
      assert name[p..] == rest[p - |prefix|..];
    }
  }

  /** What follows the slug in a file name: `.xx.mdx`, `.xx-YY.mdx`, or
      `.mdx` without a language. */
  function NameTail(lang: string): (r: string)
    ensures EndsWith(r, ".mdx")
  {
    (if lang != "" then "." + lang else "") + ".mdx"
  }

  lemma NameTailOf(lang: string)
    ensures NameTail(lang) == if lang != "" then "." + lang + ".mdx" else ".mdx"
    ensures IsLangCode(lang) ==> forall i :: 0 <= i < |NameTail(lang)| ==> !IsLineTerminator(NameTail(lang)[i])
    ensures lang == "" ==> forall i :: 0 <= i < |NameTail(lang)| ==> !IsLineTerminator(NameTail(lang)[i])
  {
  }

  lemma NameTailOneLine(slug: string, lang: string)
    requires lang == "" || IsLangCode(lang)
    requires forall i :: 0 <= i < |slug| ==> !IsLineTerminator(slug[i])
    ensures FirstLine(slug + NameTail(lang)) == slug + NameTail(lang)
  {
    NameTailOf(lang);
    hide *;
    var tail := NameTail(lang);
    var rest := slug + tail;
    forall i | 0 <= i < |rest|
      ensures !IsLineTerminator(rest[i])
    {
      if i >= |slug| {
        assert rest[i] == tail[i - |slug|];
      }
    }
    FirstLineWhole(rest);
  }

  lemma NoLangNameReadsBack(slug: string)
    requires ExtractLang(slug + ".mdx").None?
    ensures StripSuffixes(slug + ".mdx") == slug
  {
    hide LangSuffix;
    var rest := slug + ".mdx";
    assert rest[..|rest| - 4] == slug;
  }

  /** A one-line slug followed by its tail reads back as the slug and the
      language; without a language the slug must not end like a language
      suffix. */
  lemma SlugNameReadsBack(slug: string, lang: string)
    requires lang == "" || IsLangCode(lang)
    requires forall i :: 0 <= i < |slug| ==> !IsLineTerminator(slug[i])
    requires !EndsWith(slug, ".mdx")
    requires lang == "" ==> ExtractLang(slug + ".mdx").None?
    ensures StripSuffixes(FirstLine(slug + NameTail(lang))) == slug
    ensures ExtractLang(slug + NameTail(lang)) == if lang == "" then None else Some(lang)
  {
    hide *;
    NameTailOneLine(slug, lang);
    NameTailOf(lang);
    if lang != "" {
      assert slug + NameTail(lang) == slug + "." + lang + ".mdx";
      LangSuffixOf(slug, lang);
    } else {
      NoLangNameReadsBack(slug);
    }
  }

  lemma DatePrefixNoDot(date: string)
    requires IsDateText(date)
    ensures '.' !in date + "-"
  {
    var prefix := date + "-";
    assert forall i :: 0 <= i < |prefix| ==> prefix[i] == '-' || IsDigit(prefix[i]);
  }

  /** `YYYY-MM-DD-` in front of such a name is read as the date, and changes
      neither the slug nor the language. */
  lemma DatedNameReadsBack(date: string, slug: string, lang: string)
    requires IsDateText(date)
    requires lang == "" || IsLangCode(lang)
    requires forall i :: 0 <= i < |slug| ==> !IsLineTerminator(slug[i])
    requires !EndsWith(slug, ".mdx")
    requires lang == "" ==> ExtractLang(slug + ".mdx").None?
    ensures ExtractSlugAndDate(date + "-" + (slug + NameTail(lang))) == SlugAndDate(Some(date), slug)
    ensures ExtractLang(date + "-" + (slug + NameTail(lang))) == if lang == "" then None else Some(lang)
  {
    DatedNameSlug(date, slug, lang);
    DatedNameLang(date, slug, lang);
  }

  lemma DatedNameSlug(date: string, slug: string, lang: string)
    requires IsDateText(date)
    requires lang == "" || IsLangCode(lang)
    requires forall i :: 0 <= i < |slug| ==> !IsLineTerminator(slug[i])
    requires !EndsWith(slug, ".mdx")
    requires lang == "" ==> ExtractLang(slug + ".mdx").None?
    ensures ExtractSlugAndDate(date + "-" + (slug + NameTail(lang))) == SlugAndDate(Some(date), slug)
  {
    var rest := slug + NameTail(lang);
    var name := date + "-" + rest;
    assert |date| == 10;
    hide StripSuffixes, FirstLine, ExtractLang, LangSuffix, NameTail, IsLangCode, IsDateText;
    assert name[..10] == date && name[10] == '-' && name[11..] == rest;
    SlugNameReadsBack(slug, lang);
  }

  lemma DatedNameLang(date: string, slug: string, lang: string)
    requires IsDateText(date)
    requires lang == "" || IsLangCode(lang)
    requires forall i :: 0 <= i < |slug| ==> !IsLineTerminator(slug[i])
    requires !EndsWith(slug, ".mdx")
    requires lang == "" ==> ExtractLang(slug + ".mdx").None?
    ensures ExtractLang(date + "-" + (slug + NameTail(lang))) == if lang == "" then None else Some(lang)
  {
    var rest := slug + NameTail(lang);
    var prefix := date + "-";
    var name := prefix + rest;
    DatePrefixNoDot(date);
    NameTailOf(lang);
    if lang != "" {
      assert name == (prefix + slug) + "." + lang + ".mdx";
      hide *;
      LangSuffixOf(prefix + slug, lang);
    } else {
      SlugNameReadsBack(slug, lang);
      hide *;
      LangSuffixBehindPrefix(prefix, rest, 5);
      LangSuffixBehindPrefix(prefix, rest, 2);
      ExtractLangNone(name);
      ExtractLangNone(rest);
    }
  }

  lemma ExtractLangNone(name: string)
    ensures ExtractLang(name).None? <==> !LangSuffix(name, 5) && !LangSuffix(name, 2)
  {
  }

  /** The slug a translation is stored under: `lang-slug`, or just the slug
      for English. */
  function UniqueSlug(lang: string, slug: string): (r: string)
    ensures lang == "en" ==> r == slug
    ensures lang != "en" ==> r == lang + "-" + slug && |r| == |lang| + 1 + |slug|
  {
    if lang != "en" then lang + "-" + slug else slug
  }

  /** The record created for one imported file. */
  datatype Post = Post(title: string, description: string, slug: string, date: string, content: string,
                       lang: string, publishedAt: string, ogImageUrl: Option<string>, featuredImage: Option<string>)

  datatype SkipReason = InvalidFrontmatter | NoLanguage | AlreadyExists

  datatype Outcome = Skipped(reason: SkipReason) | Failed | Imported(post: Post)

  function Get(fm: map<string, string>, key: string): string {
    if key in fm then fm[key] else ""
  }

  /** A post with this slug and language is in the CMS. */
  predicate Exists(cms: seq<Post>, slug: string, lang: string) {
    exists i :: 0 <= i < |cms| && cms[i].slug == slug && cms[i].lang == lang
  }

  /** The post built from a parsed file: missing fields fall back to the file
      name's slug and date; `featuredImage` is kept only when the image value
      is an all-digit media id. */
  function BuildPost(p: Parsed, sd: SlugAndDate, lang: string, toHtml: string -> string, now: string): (post: Post)
    ensures post.slug == UniqueSlug(lang, sd.slug) && post.lang == lang
    ensures post.title == (if Get(p.frontmatter, "title") != "" then p.frontmatter["title"] else sd.slug)
    ensures post.featuredImage.Some? <==> AllDigits(Get(p.frontmatter, "image"))
    ensures post.featuredImage.Some? ==> post.featuredImage.value == p.frontmatter["image"]
    ensures post.ogImageUrl.Some? <==> Get(p.frontmatter, "ogImageUrl") != ""
  {
    var fm := p.frontmatter;
    var date := if Get(fm, "date") != "" then fm["date"] else if sd.date.Some? && sd.date.value != "" then sd.date.value else "";
    Post(if Get(fm, "title") != "" then fm["title"] else sd.slug,
         Get(fm, "description"),
         UniqueSlug(lang, sd.slug),
         date,
         toHtml(p.body),
         lang,
         now,
         if Get(fm, "ogImageUrl") != "" then Some(fm["ogImageUrl"]) else None,
         if AllDigits(Get(fm, "image")) then Some(fm["image"]) else None)
  }

  /** What happens to one file, given the CMS at that moment. A failed
      existence check reads as "not found"; a create request for a slug in
      `createFails` throws. */
  function FileOutcome(name: string, parsed: Option<Parsed>, cms: seq<Post>, checkFails: set<string>,
                       createFails: set<string>, toHtml: string -> string, now: string): (r: Outcome)
    ensures r.Skipped? && r.reason == InvalidFrontmatter <==> parsed.None?
    ensures r.Skipped? && r.reason == NoLanguage <==> parsed.Some? && ExtractLang(name).None?
    ensures r.Imported? ==>
      parsed.Some? && ExtractLang(name).Some?
      && r.post.lang == ExtractLang(name).value
      && r.post.slug == UniqueSlug(r.post.lang, ExtractSlugAndDate(name).slug)
      && (r.post.slug in checkFails || !Exists(cms, r.post.slug, r.post.lang))
  {
    if parsed.None? then Skipped(InvalidFrontmatter)
    else
      var sd := ExtractSlugAndDate(name);
      var lang := ExtractLang(name);
      if lang.None? then Skipped(NoLanguage)
      else
        var unique := UniqueSlug(lang.value, sd.slug);
        if unique !in checkFails && Exists(cms, unique, lang.value) then Skipped(AlreadyExists)
        else if unique in createFails then Failed
        else Imported(BuildPost(parsed.value, sd, lang.value, toHtml, now))
  }

  datatype Report = Report(total: nat, success: int, skipped: nat, failed: nat)

  /** The `.mdx` entries of the import directory, in listing order. */
  function MdxEntries(listing: seq<(string, string)>): (r: seq<(string, string)>)
    ensures |r| <= |listing|
    ensures forall i :: 0 <= i < |r| ==> EndsWith(r[i].0, ".mdx")
  {
    if |listing| == 0 then []
    else
      MdxEntries(listing[..|listing| - 1])
      + (if EndsWith(listing[|listing| - 1].0, ".mdx") then [listing[|listing| - 1]] else [])
  }

  /** What one file does to the CMS and to the skipped and failed counts. */
  function ImportStep(state: (seq<Post>, nat, nat), file: (string, string), checkFails: set<string>,
                      createFails: set<string>, toHtml: string -> string, now: string): (r: (seq<Post>, nat, nat))
  {
    var (c, skipped, failed) := state;
    match FileOutcome(file.0, ParseSpec(file.1), c, checkFails, createFails, toHtml, now)
    case Skipped(_) => (c, skipped + 1, failed)
    case Failed => (c, skipped, failed + 1)
    case Imported(p) => (c + [p], skipped, failed)
  }

  /** The import over a file list, as a specification: the CMS as it grows and
      the skipped and failed counts. */
  function ImportRun(files: seq<(string, string)>, cms: seq<Post>, checkFails: set<string>, createFails: set<string>,
                     toHtml: string -> string, now: string): (r: (seq<Post>, nat, nat))
  {
    if |files| == 0 then (cms, 0, 0)
    else
      ImportStep(ImportRun(files[..|files| - 1], cms, checkFails, createFails, toHtml, now), files[|files| - 1],
                 checkFails, createFails, toHtml, now)
  }

  /** The value `ParseFrontmatter` computes, as a function. */
  function ParseSpec(content: string): Option<Parsed> {
    match MatchBlock(content)
    case None => None
    case Some(b) => Some(Parsed(FoldFields(ImportLine, Split(b.frontmatter, '\n')), b.body))
  }

  /** Imports every `.mdx` file of the directory (`None`: the directory does
      not exist and nothing happens). */
  method ImportTranslations(dir: Option<seq<(string, string)>>, cms: seq<Post>, checkFails: set<string>,
                            createFails: set<string>, toHtml: string -> string, now: string)
    returns (report: Report, cms': seq<Post>)
    ensures dir.None? ==> report == Report(0, 0, 0, 0) && cms' == cms
    ensures dir.Some? ==>
      var files := MdxEntries(dir.value);
      var run := ImportRun(files, cms, checkFails, createFails, toHtml, now);
      cms' == run.0 && report == Report(|files|, |files| - run.2 - run.1, run.1, run.2)
  {
    if dir.None? {
      return Report(0, 0, 0, 0), cms;
    }
    var files := MdxEntries(dir.value);
    cms' := cms;
    var skipped, failed := 0, 0;
    var i := 0;
    assert ImportRun(files[..0], cms, checkFails, createFails, toHtml, now) == (cms, 0, 0);
    hide *;
    while i < |files|
      invariant 0 <= i <= |files|
      invariant (cms', skipped, failed) == ImportRun(files[..i], cms, checkFails, createFails, toHtml, now)
    {
      ImportRunSnoc(files, i, cms, checkFails, createFails, toHtml, now);
      cms', skipped, failed := ImportFile(files[i], cms', skipped, failed, checkFails, createFails, toHtml, now);
      i := i + 1;
    }
    assert files[..i] == files;
    report := Report(|files|, |files| - failed - skipped, skipped, failed);
  }

  lemma ImportRunSnoc(files: seq<(string, string)>, i: int, cms: seq<Post>, checkFails: set<string>,
                      createFails: set<string>, toHtml: string -> string, now: string)
    requires 0 <= i < |files|
    ensures ImportRun(files[..i + 1], cms, checkFails, createFails, toHtml, now) ==
      ImportStep(ImportRun(files[..i], cms, checkFails, createFails, toHtml, now), files[i], checkFails, createFails, toHtml, now)
  {
    assert files[..i + 1][..i] == files[..i];
  }

  /** One file: parse it, decide its outcome against the CMS as it is now, and
      count it. */
  method ImportFile(file: (string, string), cms: seq<Post>, skipped: nat, failed: nat, checkFails: set<string>,
                    createFails: set<string>, toHtml: string -> string, now: string)
    returns (cms': seq<Post>, skipped': nat, failed': nat)
    ensures (cms', skipped', failed') == ImportStep((cms, skipped, failed), file, checkFails, createFails, toHtml, now)
  {
    var (name, text) := file;
    var parsed := ParseFrontmatter(text);
    assert parsed == ParseSpec(text);
    cms', skipped', failed' := cms, skipped, failed;
    var outcome := FileOutcome(name, parsed, cms, checkFails, createFails, toHtml, now);
    match outcome {
      case Skipped(_) => skipped' := skipped + 1;
      case Failed => failed' := failed + 1;
      case Imported(p) => cms' := cms + [p];
    }
  }

  /** Every file is counted once: created posts plus skipped plus failed make
      the total, so the reported success count is the number of posts
      created, and the CMS only grows. */
  lemma {:induction false} ImportRunCounts(files: seq<(string, string)>, cms: seq<Post>, checkFails: set<string>,
                                           createFails: set<string>, toHtml: string -> string, now: string)
    ensures var (c, skipped, failed) := ImportRun(files, cms, checkFails, createFails, toHtml, now);
      skipped + failed <= |files| && |c| == |cms| + (|files| - skipped - failed) && c[..|cms|] == cms
    decreases |files|
  {
    hide FileOutcome, ParseSpec;
    if |files| > 0 {
      ImportRunCounts(files[..|files| - 1], cms, checkFails, createFails, toHtml, now);
    }
  }

  /** A post already in the CMS for a slug and language is never created a
      second time, unless the existence check for that slug failed. */
  lemma {:induction false} ImportNoDuplicate(files: seq<(string, string)>, cms: seq<Post>, checkFails: set<string>,
                                             createFails: set<string>, toHtml: string -> string, now: string, i: int)
    requires var c := ImportRun(files, cms, checkFails, createFails, toHtml, now).0; |cms| <= i < |c|
    ensures var c := ImportRun(files, cms, checkFails, createFails, toHtml, now).0;
      c[i].slug in checkFails || !Exists(c[..i], c[i].slug, c[i].lang)
    decreases |files|
  {
    if |files| > 0 {
      var init := files[..|files| - 1];
      var st := ImportRun(init, cms, checkFails, createFails, toHtml, now);
      var c0 := st.0;
      ImportRunCounts(init, cms, checkFails, createFails, toHtml, now);
      assert ImportRun(files, cms, checkFails, createFails, toHtml, now)
        == ImportStep(st, files[|files| - 1], checkFails, createFails, toHtml, now);
      ImportStepGrows(st, files[|files| - 1], checkFails, createFails, toHtml, now);
      hide ImportRun, ImportStep, Exists;
      var c := ImportRun(files, cms, checkFails, createFails, toHtml, now).0;
      if i < |c0| {
        ImportNoDuplicate(init, cms, checkFails, createFails, toHtml, now, i);
        assert c[..i] == c0[..i];
      } else {
        assert c[..i] == c0;
      }
    }
  }

  /** One file leaves the CMS as it is or appends one post that is not
      there yet (unless the existence check for its slug failed). */
  lemma ImportStepGrows(state: (seq<Post>, nat, nat), file: (string, string), checkFails: set<string>,
                        createFails: set<string>, toHtml: string -> string, now: string)
    ensures var c := ImportStep(state, file, checkFails, createFails, toHtml, now).0;
      c == state.0 || (|c| == |state.0| + 1 && c[..|state.0|] == state.0
                       && (c[|state.0|].slug in checkFails || !Exists(state.0, c[|state.0|].slug, c[|state.0|].lang)))
  {
    hide ParseSpec, Exists;
  }
}
