/** The CMS lifecycle of a press item: a published item is written as
    `<slug>.mdx` into the press content directory, an unpublished or deleted
    one is removed. These hooks do not commit anything. */
module PressItemLifecycle {
  import opened Text
  import opened MdxDocument
  import opened Workspace

  /** A press item as the CMS passes it to the hooks; the optional texts are
      absent when not set. */
  datatype PressItem = PressItem(id: int, title: string, description: string, publishDate: string,
                                 slug: string, publication: Option<string>,
                                 publicationLogo: Option<string>, externalUrl: Option<string>,
                                 content: Option<string>, featured: bool, category: string,
                                 publishedAt: Option<string>)

  /** Where the items go when `MDX_OUTPUT_PATH` is not set. */
  const DefaultOutputDir: string := "src/content/press"

  /** A boolean is written bare, a text quoted with its `"` escaped; the
      fields keep the order of the frontmatter object. */
  function Frontmatter(item: PressItem): seq<Entry> {
    LeadingFields(item) + OptionalFields(item) + TrailingFields(item)
  }

  function LeadingFields(item: PressItem): seq<Entry> {
    [Field("title", Quoted(item.title)), Field("description", Quoted(item.description)),
     Field("publishDate", Quoted(item.publishDate)), Field("slug", Quoted(item.slug))]
  }

  function OptionalFields(item: PressItem): seq<Entry> {
    OptionalField("publication", item.publication)
    + OptionalField("publicationLogo", item.publicationLogo)
    + OptionalField("externalUrl", item.externalUrl)
  }

  function TrailingFields(item: PressItem): seq<Entry> {
    [Field("featured", Plain(if item.featured then "true" else "false")),
     Field("category", Quoted(item.category))]
  }

  function Body(item: PressItem, toMarkdown: string -> string): string {
    if item.content.Some? && item.content.value != "" then toMarkdown(item.content.value) else ""
  }

  function GenerateMdx(item: PressItem, toMarkdown: string -> string): string {
    Document(Frontmatter(item), "\n" + Body(item, toMarkdown) + "\n")
  }

  /** No text of the item holds a line break. */
  predicate SingleLineTexts(item: PressItem) {
    '\n' !in item.title && '\n' !in item.description && '\n' !in item.publishDate
    && '\n' !in item.slug && '\n' !in item.category
    && (item.publication.Some? ==> '\n' !in item.publication.value)
    && (item.publicationLogo.Some? ==> '\n' !in item.publicationLogo.value)
    && (item.externalUrl.Some? ==> '\n' !in item.externalUrl.value)
  }

  /** The written file reads back as the four leading texts, each optional
      text that is set and not empty, the featured flag as a bare `true` or
      `false`, and the category, then the converted content between an empty
      line and a final line break. */
  lemma GenerateMdxReadsBack(item: PressItem, toMarkdown: string -> string)
    requires SingleLineTexts(item)
    ensures ReadDocument(GenerateMdx(item, toMarkdown)) == Some((
      LeadingFields(item) + OptionalFields(item) + TrailingFields(item),
      "\n" + (if item.content.Some? && item.content.value != "" then toMarkdown(item.content.value) else "") + "\n"))
  {
    FrontmatterGood(item);
    ReadDocumentOfDocument(Frontmatter(item), "\n" + Body(item, toMarkdown) + "\n");
    hide ReadDocument, Document, GoodEntry, OptionalFields;
  }

  /** The key `publication` is written exactly when the item has a non-empty
      publication; the same holds for the logo and the external link. */
  lemma OptionalKeysIffSet(item: PressItem)
    ensures HasKey(Frontmatter(item), "publication") <==> item.publication.Some? && item.publication.value != ""
    ensures HasKey(Frontmatter(item), "publicationLogo") <==> item.publicationLogo.Some? && item.publicationLogo.value != ""
    ensures HasKey(Frontmatter(item), "externalUrl") <==> item.externalUrl.Some? && item.externalUrl.value != ""
  {
    OptionalKeyIffSet(item, "publication", item.publication);
    OptionalKeyIffSet(item, "publicationLogo", item.publicationLogo);
    OptionalKeyIffSet(item, "externalUrl", item.externalUrl);
  }

  lemma OptionalKeyIffSet(item: PressItem, k: string, v: Option<string>)
    requires (k, v) in {("publication", item.publication), ("publicationLogo", item.publicationLogo),
                         ("externalUrl", item.externalUrl)}
    ensures HasKey(Frontmatter(item), k) <==> v.Some? && v.value != ""
  {
    var p := OptionalField("publication", item.publication);
    var l := OptionalField("publicationLogo", item.publicationLogo);
    var x := OptionalField("externalUrl", item.externalUrl);
    HasKeyConcat(LeadingFields(item), OptionalFields(item), k);
    HasKeyConcat(LeadingFields(item) + OptionalFields(item), TrailingFields(item), k);
    HasKeyConcat(p, l, k);
    HasKeyConcat(p + l, x, k);
    assert !HasKey(LeadingFields(item), k);
    assert !HasKey(TrailingFields(item), k);
    if v.Some? && v.value != "" {
      assert OptionalField(k, v)[0].key == k;
    }
  }

  lemma FrontmatterGood(item: PressItem)
    requires SingleLineTexts(item)
    ensures |Frontmatter(item)| >= 1
    ensures GoodEntries(Frontmatter(item))
  {
    LeadingGood(item);
    OptionalsGood(item);
    TrailingGood(item);
    GoodEntriesConcat(LeadingFields(item), OptionalFields(item));
    GoodEntriesConcat(LeadingFields(item) + OptionalFields(item), TrailingFields(item));
  }

  lemma LeadingGood(item: PressItem)
    requires SingleLineTexts(item)
    ensures GoodEntries(LeadingFields(item))
  {
    KeysGood();
    hide GoodKey;
    var h := LeadingFields(item);
    assert GoodEntry(h[0]) && GoodEntry(h[1]) && GoodEntry(h[2]) && GoodEntry(h[3]);
  }

  lemma TrailingGood(item: PressItem)
    requires SingleLineTexts(item)
    ensures GoodEntries(TrailingFields(item))
  {
    KeysGood();
    hide GoodKey;
    var t := TrailingFields(item);
    assert GoodEntry(t[0]) && GoodEntry(t[1]);
  }

  lemma KeysGood()
    ensures GoodKey("title") && GoodKey("description") && GoodKey("publishDate") && GoodKey("slug")
    ensures GoodKey("publication") && GoodKey("publicationLogo") && GoodKey("externalUrl")
    ensures GoodKey("featured") && GoodKey("category")
  {
  }

  lemma OptionalsGood(item: PressItem)
    requires SingleLineTexts(item)
    ensures GoodEntries(OptionalFields(item))
  {
    KeysGood();
    hide GoodKey;
    var p := OptionalField("publication", item.publication);
    var l := OptionalField("publicationLogo", item.publicationLogo);
    var x := OptionalField("externalUrl", item.externalUrl);
    OptionalFieldGood("publication", item.publication);
    OptionalFieldGood("publicationLogo", item.publicationLogo);
    OptionalFieldGood("externalUrl", item.externalUrl);
    GoodEntriesConcat(p, l);
    GoodEntriesConcat(p + l, x);
  }

  /** Write, delete and every hook use this one path: the slug and `.mdx`. */
  function FilePath(dir: string, slug: string): (path: string)
    ensures EndsWith(path, ".mdx")
  {
    assert (dir + "/" + (slug + ".mdx"))[|dir + "/" + slug|..] == ".mdx";
    PathJoin(dir, slug + ".mdx")
  }

  /** Two items with different slugs never share a file. */
  lemma DistinctSlugsDistinctPaths(dir: string, a: string, b: string)
    requires a != b
    ensures FilePath(dir, a) != FilePath(dir, b)
  {
    assert (a + ".mdx")[..|a|] == a && (b + ".mdx")[..|b|] == b;
    if FilePath(dir, a) == FilePath(dir, b) {
      PathJoinInjective(dir, a + ".mdx", b + ".mdx");
    }
  }

  // ---------------------------------------------------------------------
  // Hooks

  method WriteMdxFile(site: Site, dir: string, item: PressItem, toMarkdown: string -> string)
    modifies site
    ensures site.files == old(site.files)[FilePath(dir, item.slug) := GenerateMdx(item, toMarkdown)]
    ensures site.gitLog == old(site.gitLog) && site.Env() == old(site.Env())
  {
    site.WriteFile(FilePath(dir, item.slug), GenerateMdx(item, toMarkdown));
  }

  method DeleteMdxFile(site: Site, dir: string, slug: string)
    modifies site
    ensures site.files == old(site.files) - {FilePath(dir, slug)}
    ensures site.gitLog == old(site.gitLog) && site.Env() == old(site.Env())
  {
    var _ := site.DeleteFile(FilePath(dir, slug));
  }

  /** The files after `afterCreate`: a published item is written, anything
      else changes nothing. */
  function CreatedFiles(files: map<string, string>, dir: string, result: Option<PressItem>,
                        toMarkdown: string -> string): map<string, string> {
    if result.Some? && IsPublished(result.value.publishedAt)
    then WriteOrRemove(files, FilePath(dir, result.value.slug), GenerateMdx(result.value, toMarkdown), true)
    else files
  }

  /** The files after `afterUpdate`: a published item is written, an
      unpublished one removed. */
  function UpdatedFiles(files: map<string, string>, dir: string, result: Option<PressItem>,
                        toMarkdown: string -> string): map<string, string> {
    if result.None? then files
    else WriteOrRemove(files, FilePath(dir, result.value.slug), GenerateMdx(result.value, toMarkdown),
                       IsPublished(result.value.publishedAt))
  }

  /** The files after `afterDelete`: the item's file is removed. */
  function DeletedFiles(files: map<string, string>, dir: string, result: Option<PressItem>): map<string, string> {
    if result.None? then files
    else WriteOrRemove(files, FilePath(dir, result.value.slug), "", false)
  }

  method AfterCreate(site: Site, dir: string, result: Option<PressItem>, toMarkdown: string -> string)
    modifies site
    ensures site.files == CreatedFiles(old(site.files), dir, result, toMarkdown)
    ensures site.gitLog == old(site.gitLog) && site.Env() == old(site.Env())
  {
    if result.Some? && IsPublished(result.value.publishedAt) {
      WriteMdxFile(site, dir, result.value, toMarkdown);
    }
  }

  method AfterUpdate(site: Site, dir: string, result: Option<PressItem>, toMarkdown: string -> string)
    modifies site
    ensures site.files == UpdatedFiles(old(site.files), dir, result, toMarkdown)
    ensures site.gitLog == old(site.gitLog) && site.Env() == old(site.Env())
  {
    if result.Some? {
      if IsPublished(result.value.publishedAt) {
        WriteMdxFile(site, dir, result.value, toMarkdown);
      } else {
        DeleteMdxFile(site, dir, result.value.slug);
      }
    }
  }

  method AfterDelete(site: Site, dir: string, result: Option<PressItem>)
    modifies site
    ensures site.files == DeletedFiles(old(site.files), dir, result)
    ensures site.gitLog == old(site.gitLog) && site.Env() == old(site.Env())
  {
    if result.Some? {
      DeleteMdxFile(site, dir, result.value.slug);
    }
  }

  /** `afterUpdate` leaves the item's file present exactly when the item is
      published, and touches no other file. */
  lemma UpdatePresentIffPublished(files: map<string, string>, dir: string, item: PressItem,
                                  toMarkdown: string -> string, p: string)
    ensures var r := UpdatedFiles(files, dir, Some(item), toMarkdown);
      var path := FilePath(dir, item.slug);
      (path in r <==> IsPublished(item.publishedAt))
      && (IsPublished(item.publishedAt) ==> r[path] == GenerateMdx(item, toMarkdown))
      && (p != path ==> (p in r <==> p in files) && (p in r ==> r[p] == files[p]))
  {
    WriteOrRemoveEffect(files, FilePath(dir, item.slug), GenerateMdx(item, toMarkdown), IsPublished(item.publishedAt));
  }

  /** `afterCreate` writes the item's file only for a published item. */
  lemma CreateWritesIffPublished(files: map<string, string>, dir: string, item: PressItem,
                                 toMarkdown: string -> string)
    ensures var r := CreatedFiles(files, dir, Some(item), toMarkdown);
      (IsPublished(item.publishedAt) ==> r == files[FilePath(dir, item.slug) := GenerateMdx(item, toMarkdown)])
      && (!IsPublished(item.publishedAt) ==> r == files)
  {
  }

  /** Publishing a new item and then deleting it leaves the press directory
      as it was. */
  lemma CreateThenDelete(files: map<string, string>, dir: string, item: PressItem, toMarkdown: string -> string)
    requires IsPublished(item.publishedAt) && FilePath(dir, item.slug) !in files
    ensures DeletedFiles(CreatedFiles(files, dir, Some(item), toMarkdown), dir, Some(item)) == files
  {
    WriteThenRemove(files, FilePath(dir, item.slug), GenerateMdx(item, toMarkdown));
  }
}
