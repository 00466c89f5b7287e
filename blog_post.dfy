/** The CMS lifecycle of a blog post. Publishing a post looks it up again with
    its linked translations, writes `<date>-<slug>.<lang>.mdx` with a
    `translations:` block naming the slug of every language it is linked to,
    rewrites the file of every linked translation the same way (one level
    deep), and commits the post's own file. Unpublishing or deleting removes
    the post's file and commits the removal. */
module BlogPostLifecycle {
  import opened Text
  import opened Escapes
  import opened MdxDocument
  import opened Workspace
  import opened OrderedDict

  /** One uploaded file: its own `url`, or the `url` under `attributes`. */
  datatype Media = Media(url: Option<string>, attributesUrl: Option<string>)

  /** A media field: one file, or a non-empty list of which the first counts. */
  datatype MediaField = One(media: Media) | Many(first: Media, rest: seq<Media>)

  /** A post as the document service returns it; `linked` holds the linked
      translations as far as they were populated. */
  datatype BlogPost = BlogPost(id: int, documentId: Option<string>, title: string, description: string,
                               slug: string, date: string, content: string, lang: Option<string>,
                               ogImageUrl: Option<string>, featuredImage: Option<MediaField>,
                               publishedAt: Option<string>, linked: seq<BlogPost>)

  /** Where the posts go when `BLOG_MDX_OUTPUT_PATH` is not set. */
  const DefaultOutputDir: string := "src/content/blog"
  /** The Strapi origin when `STRAPI_URL` is not set. */
  const DefaultStrapiUrl: string := "http://localhost:1337"

  /** `formatDate`: the part of the date before the first `T`, or nothing
      for an empty date. */
  function FormatDate(date: string): (r: string)
    ensures 'T' !in r
    ensures StartsWith(date, r)
    ensures 'T' !in date ==> r == date
    ensures 'T' in date ==> r == date[..IndexOf(date, 'T')]
  {
    if date == "" then "" else SplitFirst(date)
  }

  /** `date.split('T')[0]` */
  function SplitFirst(date: string): (r: string)
    ensures r == Split(date, 'T')[0]
    ensures 'T' !in date ==> r == date
    ensures 'T' in date ==> r == date[..IndexOf(date, 'T')]
  {
    Split(date, 'T')[0]
  }

  /** Formatting a formatted date changes nothing. */
  lemma FormatDateIdempotent(date: string)
    ensures FormatDate(FormatDate(date)) == FormatDate(date)
  {
  }

  /** `lang || 'en'` */
  function LangOf(p: BlogPost): (l: string)
    ensures l != ""
  {
    if p.lang.Some? && p.lang.value != "" then p.lang.value else "en"
  }

  /** `${formatDate(date)}-${slug}.${lang || 'en'}.mdx` */
  function GenerateFilename(p: BlogPost): (name: string)
    ensures EndsWith(name, "." + LangOf(p) + ".mdx")
    ensures StartsWith(name, FormatDate(p.date) + "-" + p.slug + ".")
  {
    var prefix := FormatDate(p.date) + "-" + p.slug;
    var name := prefix + "." + LangOf(p) + ".mdx";
    assert name == prefix + ("." + LangOf(p) + ".mdx");
    assert name[..|prefix| + 1] == prefix + ".";
    name
  }

  /** Two translations with the same date and slug but different languages
      never share a file, so the cascade cannot overwrite one language with
      another. */
  lemma LanguagesSeparateFiles(a: BlogPost, b: BlogPost)
    requires FormatDate(a.date) == FormatDate(b.date) && a.slug == b.slug && LangOf(a) != LangOf(b)
    ensures GenerateFilename(a) != GenerateFilename(b)
  {
    var prefix := FormatDate(a.date) + "-" + a.slug + ".";
    var na, nb := GenerateFilename(a), GenerateFilename(b);
    assert na == prefix + (LangOf(a) + ".mdx");
    assert nb == prefix + (LangOf(b) + ".mdx");
    assert na[|prefix|..] == LangOf(a) + ".mdx";
    assert nb[|prefix|..] == LangOf(b) + ".mdx";
    if |LangOf(a)| == |LangOf(b)| {
      assert na[|prefix|..][..|LangOf(a)|] == LangOf(a);
      assert nb[|prefix|..][..|LangOf(b)|] == LangOf(b);
    } else {
      assert |na| != |nb|;
    }
  }

  /** The first file of a media field. */
  function FirstMedia(f: MediaField): Media {
    match f
    case One(m) => m
    case Many(m, _) => m
  }

  /** `media.url || media.attributes?.url`, `""` when neither is set. */
  function MediaUrl(m: Media): string {
    if m.url.Some? && m.url.value != "" then m.url.value
    else if m.attributesUrl.Some? && m.attributesUrl.value != "" then m.attributesUrl.value
    else ""
  }

  /** `getImageUrl`: an absolute URL (one starting with `http`) as it is, a
      relative one behind the Strapi origin `base`, nothing when the post has
      no image or the image has no URL. */
  function ImageUrl(media: Option<MediaField>, base: string): (r: Option<string>)
    ensures r.Some? <==> media.Some? && MediaUrl(FirstMedia(media.value)) != ""
    ensures r.Some? && StartsWith(MediaUrl(FirstMedia(media.value)), "http") ==> r.value == MediaUrl(FirstMedia(media.value))
    ensures r.Some? && !StartsWith(MediaUrl(FirstMedia(media.value)), "http") ==> r.value == base + MediaUrl(FirstMedia(media.value))
  {
    if media.None? then None
    else
      var url := MediaUrl(FirstMedia(media.value));
      if url == "" then None
      else if StartsWith(url, "http") then Some(url)
      else Some(base + url)
  }

  /** With an origin that starts with `http`, every image URL does. */
  lemma ImageUrlAbsolute(media: Option<MediaField>, base: string)
    requires StartsWith(base, "http")
    ensures var r := ImageUrl(media, base); r.Some? ==> StartsWith(r.value, "http")
  {
    var r := ImageUrl(media, base);
    if r.Some? {
      var url := MediaUrl(FirstMedia(media.value));
      if !StartsWith(url, "http") {
        assert (base + url)[..4] == base[..4];
      }
    }
  }

  /** A URL the resolution produced resolves to itself again, whatever the
      origin: resolving is idempotent. */
  lemma ImageUrlStable(media: Option<MediaField>, base: string, other: string)
    requires StartsWith(base, "http") && ImageUrl(media, base).Some?
    ensures var u := ImageUrl(media, base).value;
      ImageUrl(Some(One(Media(Some(u), None))), other) == Some(u)
  {
    ImageUrlAbsolute(media, base);
  }

  // ---------------------------------------------------------------------
  // The translations block

  /** The posts `writeMDXFile` visits to build the translations, in order:
      the post, then each linked translation followed by its own linked
      translations. */
  function Visited(p: BlogPost): seq<BlogPost> {
    [p] + VisitLinks(p.linked)
  }

  function VisitLinks(locs: seq<BlogPost>): seq<BlogPost>
    decreases |locs|
  {
    if |locs| == 0 then [] else [locs[0]] + locs[0].linked + VisitLinks(locs[1..])
  }

  /** The visited posts that have a slug: only they are added to the map. */
  function WithSlug(ps: seq<BlogPost>): (r: seq<BlogPost>)
    ensures forall q :: q in r <==> q in ps && q.slug != ""
    ensures |r| <= |ps|
    decreases |ps|
  {
    if |ps| == 0 then []
    else if ps[0].slug != "" then [ps[0]] + WithSlug(ps[1..])
    else WithSlug(ps[1..])
  }

  function Contributors(p: BlogPost): seq<BlogPost> {
    WithSlug(Visited(p))
  }

  /** `translations[lang || 'en'] = slug` for every contributor, in order: a
      language seen again takes the later slug but keeps its first place. */
  function Translations(p: BlogPost): Dict<string> {
    PutAll([], Contributors(p), LangOf, (q: BlogPost) => q.slug)
  }

  /** Each language is listed once; it maps to the slug of the last visited
      post of that language that has a slug, and a language no such post has
      is not listed. */
  lemma TranslationsLastWins(p: BlogPost, l: string)
    ensures Keyed(Translations(p))
    ensures var cs := Contributors(p);
      (forall i :: 0 <= i < |cs| ==> LangOf(cs[i]) != l) ==> Find(Translations(p), l).None?
    ensures var cs := Contributors(p);
      forall i :: 0 <= i < |cs| && LangOf(cs[i]) == l && (forall j :: i < j < |cs| ==> LangOf(cs[j]) != l) ==>
        Find(Translations(p), l) == Some(cs[i].slug)
  {
    var cs := Contributors(p);
    var slugOf := (q: BlogPost) => q.slug;
    var empty: Dict<string> := [];
    assert Translations(p) == PutAll(empty, cs, LangOf, slugOf);
    assert Keyed(empty) && Find(empty, l).None?;
    hide *;
    PutAllKeyed(empty, cs, LangOf, slugOf);
    PutAllFind(empty, cs, LangOf, slugOf, l);
  }

  /** A post with a slug lists itself under its own language, unless a linked
      post of the same language that comes later in the visit has a slug. */
  lemma OwnLanguageListed(p: BlogPost)
    requires p.slug != ""
    requires forall j :: 1 <= j < |Contributors(p)| ==> LangOf(Contributors(p)[j]) != LangOf(p)
    ensures Find(Translations(p), LangOf(p)) == Some(p.slug)
  {
    var cs := Contributors(p);
    assert Visited(p)[0] == p;
    assert cs[0] == p;
    TranslationsLastWins(p, LangOf(p));
  }

  /** The block under `translations:`: one indented line per language, with
      the slug in quotes as it is (slugs are not escaped). */
  function TranslationItems(d: Dict<string>): (r: seq<Entry>)
    ensures |r| == |d| && forall i :: 0 <= i < |d| ==> r[i] == Item(d[i].0, Plain("\"" + d[i].1 + "\""))
  {
    seq(|d|, i requires 0 <= i < |d| => Item(d[i].0, Plain("\"" + d[i].1 + "\"")))
  }

  /** The `translations:` header and its items, only when the map is not
      empty. */
  function TranslationBlock(d: Dict<string>): seq<Entry> {
    if |d| == 0 then [] else [Header("translations")] + TranslationItems(d)
  }

  /** The same block as the reader sees it: each slug a quoted value. */
  function TranslationBlockAsRead(d: Dict<string>): seq<Entry> {
    if |d| == 0 then []
    else [Header("translations")] + seq(|d|, i requires 0 <= i < |d| => Item(d[i].0, Quoted(d[i].1)))
  }

  /** A slug without `"` is written exactly as a quoted value would be. */
  lemma TranslationBlockRendersAsQuoted(d: Dict<string>)
    requires forall i :: 0 <= i < |d| ==> '"' !in d[i].1
    ensures Lines(TranslationBlock(d)) == Lines(TranslationBlockAsRead(d))
  {
    if |d| > 0 {
      var w, r := TranslationBlock(d), TranslationBlockAsRead(d);
      forall i | 0 <= i < |w| ensures Line(w[i]) == Line(r[i]) {
        if i > 0 {
          EscapeQuoteFree(d[i - 1].1);
        }
      }
    }
  }

  // ---------------------------------------------------------------------
  // The document

  /** The fields before the translations block: optional ones only when set
      and not empty, `date` and `slug` written bare, `isTranslated` only when
      given. */
  function Fields(p: BlogPost, image: Option<string>, isTranslated: Option<bool>): seq<Entry> {
    [Field("title", Quoted(p.title)), Field("description", Quoted(p.description))]
    + OptionalField("ogImageUrl", p.ogImageUrl)
    + [Field("date", Plain(FormatDate(p.date))), Field("slug", Plain(p.slug))]
    + OptionalField("lang", p.lang)
    + OptionalField("image", image)
    + (if isTranslated.Some? then [Field("isTranslated", Plain(if isTranslated.value then "true" else "false"))] else [])
  }

  function Frontmatter(p: BlogPost, d: Dict<string>, isTranslated: Option<bool>, base: string): seq<Entry> {
    Fields(p, ImageUrl(p.featuredImage, base), isTranslated) + TranslationBlock(d)
  }

  function GenerateMdx(p: BlogPost, d: Dict<string>, isTranslated: Option<bool>, base: string,
                       toMarkdown: string -> string): string {
    Document(Frontmatter(p, d, isTranslated, base), "\n" + toMarkdown(p.content) + "\n")
  }

  /** What the post's own fields must be for the file to read back: single
      lines, and the bare `date` and `slug` free of edge white space and not
      starting with a quote. */
  predicate Readable(p: BlogPost, base: string) {
    '\n' !in p.title && '\n' !in p.description
    && (p.ogImageUrl.Some? ==> '\n' !in p.ogImageUrl.value)
    && (p.lang.Some? ==> '\n' !in p.lang.value)
    && (ImageUrl(p.featuredImage, base).Some? ==> '\n' !in ImageUrl(p.featuredImage, base).value)
    && GoodValue(Plain(FormatDate(p.date))) && GoodValue(Plain(p.slug))
  }

  /** Every language is a key the reader finds again and no slug holds a
      quote or a line break. */
  predicate ReadableTranslations(d: Dict<string>) {
    forall i :: 0 <= i < |d| ==> GoodKey(d[i].0) && '"' !in d[i].1 && '\n' !in d[i].1
  }

  /** The written file reads back as its fields, the `translations:` header
      with one entry per language and its slug (when there are any), and the
      converted content between an empty line and a final line break. */
  lemma GenerateMdxReadsBack(p: BlogPost, d: Dict<string>, isTranslated: Option<bool>, base: string,
                             toMarkdown: string -> string)
    requires Readable(p, base) && ReadableTranslations(d)
    ensures ReadDocument(GenerateMdx(p, d, isTranslated, base, toMarkdown)) == Some((
      Fields(p, ImageUrl(p.featuredImage, base), isTranslated) + TranslationBlockAsRead(d),
      "\n" + toMarkdown(p.content) + "\n"))
  {
    var fs := Fields(p, ImageUrl(p.featuredImage, base), isTranslated);
    var body := "\n" + toMarkdown(p.content) + "\n";
    FieldsGood(p, ImageUrl(p.featuredImage, base), isTranslated);
    BlockGood(d);
    GoodEntriesConcat(fs, TranslationBlockAsRead(d));
    TranslationBlockRendersAsQuoted(d);
    LinesConcat(fs, TranslationBlock(d));
    LinesConcat(fs, TranslationBlockAsRead(d));
    assert Document(fs + TranslationBlock(d), body) == Document(fs + TranslationBlockAsRead(d), body);
    ReadDocumentOfDocument(fs + TranslationBlockAsRead(d), body);
    hide ReadDocument, Document, GoodEntries, Lines, Fields;
  }

  lemma KeysGood()
    ensures GoodKey("title") && GoodKey("description") && GoodKey("ogImageUrl") && GoodKey("date")
    ensures GoodKey("slug") && GoodKey("lang") && GoodKey("image") && GoodKey("isTranslated")
    ensures GoodKey("translations")
  {
  }

  lemma FieldsGood(p: BlogPost, image: Option<string>, isTranslated: Option<bool>)
    requires '\n' !in p.title && '\n' !in p.description
    requires p.ogImageUrl.Some? ==> '\n' !in p.ogImageUrl.value
    requires p.lang.Some? ==> '\n' !in p.lang.value
    requires image.Some? ==> '\n' !in image.value
    requires GoodValue(Plain(FormatDate(p.date))) && GoodValue(Plain(p.slug))
    ensures |Fields(p, image, isTranslated)| >= 1
    ensures GoodEntries(Fields(p, image, isTranslated))
  {
    KeysGood();
    hide GoodKey;
    var a := [Field("title", Quoted(p.title)), Field("description", Quoted(p.description))];
    var o := OptionalField("ogImageUrl", p.ogImageUrl);
    var b := [Field("date", Plain(FormatDate(p.date))), Field("slug", Plain(p.slug))];
    var l := OptionalField("lang", p.lang);
    var m := OptionalField("image", image);
    var t := if isTranslated.Some? then [Field("isTranslated", Plain(if isTranslated.value then "true" else "false"))] else [];
    assert GoodEntries(a) && GoodEntries(b) && GoodEntries(t);
    OptionalFieldGood("ogImageUrl", p.ogImageUrl);
    OptionalFieldGood("lang", p.lang);
    OptionalFieldGood("image", image);
    GoodEntriesConcat(a, o);
    GoodEntriesConcat(a + o, b);
    GoodEntriesConcat(a + o + b, l);
    GoodEntriesConcat(a + o + b + l, m);
    GoodEntriesConcat(a + o + b + l + m, t);
  }

  lemma BlockGood(d: Dict<string>)
    requires ReadableTranslations(d)
    ensures GoodEntries(TranslationBlockAsRead(d))
  {
    KeysGood();
    hide GoodKey;
  }

  // ---------------------------------------------------------------------
  // Writing, with the cascade to the linked translations

  /** `post.documentId || post.id`: the key `findOne` is called with. */
  function LookupKey(post: BlogPost): string {
    if post.documentId.Some? && post.documentId.value != "" then post.documentId.value else IntToString(post.id)
  }

  function FilePath(dir: string, p: BlogPost): (path: string)
    ensures path != ""
  {
    PathJoin(dir, GenerateFilename(p))
  }

  /** The document written for a looked-up post: its translations map, and
      `isTranslated: true`. */
  function PostDocument(p: BlogPost, base: string, toMarkdown: string -> string): string {
    GenerateMdx(p, Translations(p), Some(true), base, toMarkdown)
  }

  /** The files after one lookup and write without cascading: nothing happens
      when the post is not found. */
  function WriteOne(files: map<string, string>, dir: string, post: BlogPost, find: string -> Option<BlogPost>,
                    base: string, toMarkdown: string -> string): map<string, string> {
    match find(LookupKey(post))
    case None => files
    case Some(p) => files[FilePath(dir, p) := PostDocument(p, base, toMarkdown)]
  }

  /** The files after writing each of `locs` in order without cascading. */
  function CascadeFiles(files: map<string, string>, dir: string, locs: seq<BlogPost>,
                        find: string -> Option<BlogPost>, base: string, toMarkdown: string -> string): map<string, string>
    decreases |locs|
  {
    if |locs| == 0 then files
    else WriteOne(CascadeFiles(files, dir, locs[..|locs| - 1], find, base, toMarkdown), dir, locs[|locs| - 1],
                  find, base, toMarkdown)
  }

  /** One more translation written without cascading extends the cascade by
      one step. */
  lemma CascadeStep(files: map<string, string>, dir: string, locs: seq<BlogPost>, i: nat,
                    find: string -> Option<BlogPost>, base: string, toMarkdown: string -> string)
    requires i < |locs|
    ensures CascadeFiles(files, dir, locs[..i + 1], find, base, toMarkdown)
         == WrittenFiles(CascadeFiles(files, dir, locs[..i], find, base, toMarkdown), dir, locs[i], false,
                         find, base, toMarkdown)
  {
    assert locs[..i + 1][..i] == locs[..i];
  }

  /** The files after `writeMDXFile(post, cascade)`. */
  function WrittenFiles(files: map<string, string>, dir: string, post: BlogPost, cascade: bool,
                        find: string -> Option<BlogPost>, base: string, toMarkdown: string -> string): map<string, string> {
    match find(LookupKey(post))
    case None => files
    case Some(p) =>
      var own := files[FilePath(dir, p) := PostDocument(p, base, toMarkdown)];
      if cascade then CascadeFiles(own, dir, p.linked, find, base, toMarkdown) else own
  }

  /** The path `writeMDXFile` returns: the looked-up post's file, or `""` when
      the post is not found. */
  function WrittenPath(dir: string, post: BlogPost, find: string -> Option<BlogPost>): (path: string)
    ensures path == "" <==> find(LookupKey(post)).None?
  {
    match find(LookupKey(post))
    case None => ""
    case Some(p) => FilePath(dir, p)
  }

  method WriteMdxFile(site: Site, dir: string, post: BlogPost, cascade: bool, find: string -> Option<BlogPost>,
                      base: string, toMarkdown: string -> string) returns (filepath: string)
    modifies site
    ensures filepath == WrittenPath(dir, post, find)
    ensures site.files == WrittenFiles(old(site.files), dir, post, cascade, find, base, toMarkdown)
    ensures site.gitLog == old(site.gitLog) && site.Env() == old(site.Env())
    decreases if cascade then 1 else 0
  {
    var found := find(LookupKey(post));
    if found.None? {
      return "";
    }
    var p := found.value;
    site.WriteFile(FilePath(dir, p), PostDocument(p, base, toMarkdown));
    if cascade {
      var own := site.files;
      var i := 0;
      while i < |p.linked|
        invariant 0 <= i <= |p.linked|
        invariant site.files == CascadeFiles(own, dir, p.linked[..i], find, base, toMarkdown)
        invariant site.gitLog == old(site.gitLog) && site.Env() == old(site.Env())
      {
        var _ := WriteMdxFile(site, dir, p.linked[i], false, find, base, toMarkdown);
        CascadeStep(own, dir, p.linked, i, find, base, toMarkdown);
        i := i + 1;
      }
      assert p.linked[..i] == p.linked;
    }
    filepath := FilePath(dir, p);
  }

  /** The cascade changes only files of the posts it looks up: any other path
      keeps what it had. */
  lemma {:induction false} CascadeTouchesOnlyFound(files: map<string, string>, dir: string, locs: seq<BlogPost>,
                                                   find: string -> Option<BlogPost>, base: string,
                                                   toMarkdown: string -> string, path: string)
    requires forall i :: 0 <= i < |locs| && find(LookupKey(locs[i])).Some? ==>
      FilePath(dir, find(LookupKey(locs[i])).value) != path
    ensures var r := CascadeFiles(files, dir, locs, find, base, toMarkdown);
      (path in r <==> path in files) && (path in r ==> r[path] == files[path])
    decreases |locs|
  {
    if |locs| > 0 {
      CascadeTouchesOnlyFound(files, dir, locs[..|locs| - 1], find, base, toMarkdown, path);
    }
  }

  /** After the cascade, a found translation's file holds its own document,
      unless a later translation's file has the same path. */
  lemma {:induction false} CascadeWritesSibling(files: map<string, string>, dir: string, locs: seq<BlogPost>,
                                                find: string -> Option<BlogPost>, base: string,
                                                toMarkdown: string -> string, k: nat)
    requires k < |locs| && find(LookupKey(locs[k])).Some?
    requires forall j :: k < j < |locs| && find(LookupKey(locs[j])).Some? ==>
      FilePath(dir, find(LookupKey(locs[j])).value) != FilePath(dir, find(LookupKey(locs[k])).value)
    ensures var q := find(LookupKey(locs[k])).value;
      var r := CascadeFiles(files, dir, locs, find, base, toMarkdown);
      FilePath(dir, q) in r && r[FilePath(dir, q)] == PostDocument(q, base, toMarkdown)
    decreases |locs|
  {
    if k < |locs| - 1 {
      var init := locs[..|locs| - 1];
      assert init[k] == locs[k];
      forall j | k < j < |init| && find(LookupKey(init[j])).Some?
        ensures FilePath(dir, find(LookupKey(init[j])).value) != FilePath(dir, find(LookupKey(init[k])).value)
      {
        assert init[j] == locs[j];
      }
      CascadeWritesSibling(files, dir, init, find, base, toMarkdown, k);
    }
  }

  /** Publishing writes the post's own file with its document, unless a linked
      translation that is written after it has the same path; a post that is
      not found changes nothing. */
  lemma WriteKeepsOwnFile(files: map<string, string>, dir: string, post: BlogPost,
                          find: string -> Option<BlogPost>, base: string, toMarkdown: string -> string)
    ensures find(LookupKey(post)).None? ==> WrittenFiles(files, dir, post, true, find, base, toMarkdown) == files
    ensures find(LookupKey(post)).Some? ==>
      var p := find(LookupKey(post)).value;
      (forall i :: 0 <= i < |p.linked| && find(LookupKey(p.linked[i])).Some? ==>
         FilePath(dir, find(LookupKey(p.linked[i])).value) != FilePath(dir, p)) ==>
      var r := WrittenFiles(files, dir, post, true, find, base, toMarkdown);
      FilePath(dir, p) in r && r[FilePath(dir, p)] == PostDocument(p, base, toMarkdown)
  {
    if find(LookupKey(post)).Some? {
      var p := find(LookupKey(post)).value;
      if forall i :: 0 <= i < |p.linked| && find(LookupKey(p.linked[i])).Some? ==>
           FilePath(dir, find(LookupKey(p.linked[i])).value) != FilePath(dir, p) {
        var own := files[FilePath(dir, p) := PostDocument(p, base, toMarkdown)];
        CascadeTouchesOnlyFound(own, dir, p.linked, find, base, toMarkdown, FilePath(dir, p));
      }
    }
  }

  // ---------------------------------------------------------------------
  // Hooks

  /** The commit message of a hook: `blog: <verb> "<title>"`. */
  function Message(verb: string, post: BlogPost): string {
    "blog: " + verb + " \"" + post.title + "\""
  }

  /** `deleteMDXFile`: removes the file named after the given record (not a
      looked-up one) and returns its path whether or not it existed. */
  method DeleteMdxFile(site: Site, dir: string, post: BlogPost) returns (filepath: string)
    modifies site
    ensures filepath == FilePath(dir, post)
    ensures site.files == old(site.files) - {FilePath(dir, post)}
    ensures site.gitLog == old(site.gitLog) && site.Env() == old(site.Env())
  {
    filepath := FilePath(dir, post);
    var _ := site.DeleteFile(filepath);
  }

  /** Publishing writes (with the cascade) and commits the post's own file
      when the lookup found the post; nothing is committed otherwise. */
  method AfterCreate(site: Site, dir: string, result: Option<BlogPost>, find: string -> Option<BlogPost>,
                     base: string, toMarkdown: string -> string)
    modifies site
    ensures result.Some? && IsPublished(result.value.publishedAt) ==>
      site.files == WrittenFiles(old(site.files), dir, result.value, true, find, base, toMarkdown)
      && site.gitLog == old(site.gitLog)
         + if find(LookupKey(result.value)).None? then []
           else site.GitRun(WrittenPath(dir, result.value, find), Message("add", result.value))
    ensures !(result.Some? && IsPublished(result.value.publishedAt)) ==>
      site.files == old(site.files) && site.gitLog == old(site.gitLog)
    ensures site.Env() == old(site.Env())
  {
    if result.Some? && IsPublished(result.value.publishedAt) {
      var filepath := WriteMdxFile(site, dir, result.value, true, find, base, toMarkdown);
      if filepath != "" {
        site.GitCommitAndPush(filepath, Message("add", result.value));
      }
    }
  }

  method AfterUpdate(site: Site, dir: string, result: Option<BlogPost>, find: string -> Option<BlogPost>,
                     base: string, toMarkdown: string -> string)
    modifies site
    ensures result.Some? && IsPublished(result.value.publishedAt) ==>
      site.files == WrittenFiles(old(site.files), dir, result.value, true, find, base, toMarkdown)
      && site.gitLog == old(site.gitLog)
         + if find(LookupKey(result.value)).None? then []
           else site.GitRun(WrittenPath(dir, result.value, find), Message("update", result.value))
    ensures result.Some? && !IsPublished(result.value.publishedAt) ==>
      site.files == old(site.files) - {FilePath(dir, result.value)}
      && site.gitLog == old(site.gitLog) + site.GitRun(FilePath(dir, result.value), Message("unpublish", result.value))
    ensures result.None? ==> site.files == old(site.files) && site.gitLog == old(site.gitLog)
    ensures site.Env() == old(site.Env())
  {
    if result.Some? {
      if IsPublished(result.value.publishedAt) {
        var filepath := WriteMdxFile(site, dir, result.value, true, find, base, toMarkdown);
        if filepath != "" {
          site.GitCommitAndPush(filepath, Message("update", result.value));
        }
      } else {
        var filepath := DeleteMdxFile(site, dir, result.value);
        site.GitCommitAndPush(filepath, Message("unpublish", result.value));
      }
    }
  }

  /** Deleting removes the post's file and always commits, even when there
      was no file. */
  method AfterDelete(site: Site, dir: string, result: Option<BlogPost>)
    modifies site
    ensures result.Some? ==>
      site.files == old(site.files) - {FilePath(dir, result.value)}
      && site.gitLog == old(site.gitLog) + site.GitRun(FilePath(dir, result.value), Message("delete", result.value))
    ensures result.None? ==> site.files == old(site.files) && site.gitLog == old(site.gitLog)
    ensures site.Env() == old(site.Env())
  {
    if result.Some? {
      var filepath := DeleteMdxFile(site, dir, result.value);
      site.GitCommitAndPush(filepath, Message("delete", result.value));
    }
  }
}
