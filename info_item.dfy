/** The CMS lifecycle of an info item: a published item is written as
    `<slugified title>-<id>.mdx` into the info-items content directory, an
    unpublished or deleted one is removed. These hooks do not commit
    anything. */
module InfoItemLifecycle {
  import opened Text
  import opened MdxDocument
  import opened Workspace
  import opened Slugs

  datatype InfoItem = InfoItem(id: int, title: string, content: string, order: Option<int>,
                               publishedAt: Option<string>)

  /** Where the items go when `INFO_ITEM_MDX_OUTPUT_PATH` is not set. */
  const DefaultOutputDir: string := "src/content/info-items"

  /** `order ?? 0` */
  function OrderOrZero(order: Option<int>): int {
    if order.Some? then order.value else 0
  }

  function Frontmatter(g: InfoItem): seq<Entry> {
    [Field("title", Quoted(g.title)), Field("content", Quoted(g.content)),
     Field("order", Plain(IntToString(OrderOrZero(g.order))))]
  }

  /** The content is both a frontmatter field (the raw HTML) and, converted,
      the body. */
  function GenerateMdx(g: InfoItem, toMarkdown: string -> string): string {
    Document(Frontmatter(g), "\n" + toMarkdown(g.content) + "\n")
  }

  /** The written file reads back as the title, the raw content and the
      order (0 when unset), then the converted content between an empty line
      and a final line break. */
  lemma GenerateMdxReadsBack(g: InfoItem, toMarkdown: string -> string)
    requires '\n' !in g.title && '\n' !in g.content
    ensures ReadDocument(GenerateMdx(g, toMarkdown)) == Some((
      [Field("title", Quoted(g.title)), Field("content", Quoted(g.content)),
       Field("order", Plain(IntToString(if g.order.Some? then g.order.value else 0)))],
      "\n" + toMarkdown(g.content) + "\n"))
  {
    FrontmatterGood(g);
    ReadDocumentOfDocument(Frontmatter(g), "\n" + toMarkdown(g.content) + "\n");
    hide ReadDocument, Document, GoodEntry;
  }

  lemma FrontmatterGood(g: InfoItem)
    requires '\n' !in g.title && '\n' !in g.content
    ensures forall i :: 0 <= i < |Frontmatter(g)| ==> GoodEntry(Frontmatter(g)[i])
  {
    assert GoodKey("title") && GoodKey("content") && GoodKey("order");
    PlainNumber(OrderOrZero(g.order));
    hide GoodKey, GoodValue;
    var es := Frontmatter(g);
    assert GoodEntry(es[0]) && GoodEntry(es[1]) && GoodEntry(es[2]);
  }

  /** Write, delete and every hook use this one path. */
  function FilePath(dir: string, g: InfoItem): string {
    PathJoin(dir, SlugIdFilename(g.title, g.id))
  }

  /** Two items with different non-negative ids never share a file, even
      when their titles slugify alike. */
  lemma DistinctIdsDistinctPaths(dir: string, a: InfoItem, b: InfoItem)
    requires a.id >= 0 && b.id >= 0 && a.id != b.id
    ensures FilePath(dir, a) != FilePath(dir, b)
  {
    if FilePath(dir, a) == FilePath(dir, b) {
      PathJoinInjective(dir, SlugIdFilename(a.title, a.id), SlugIdFilename(b.title, b.id));
      FilenameIdentifiesId(a.title, a.id, b.title, b.id);
    }
  }

  // ---------------------------------------------------------------------
  // Hooks

  method WriteMdxFile(site: Site, dir: string, g: InfoItem, toMarkdown: string -> string)
    modifies site
    ensures site.files == old(site.files)[FilePath(dir, g) := GenerateMdx(g, toMarkdown)]
    ensures site.gitLog == old(site.gitLog) && site.Env() == old(site.Env())
  {
    site.WriteFile(FilePath(dir, g), GenerateMdx(g, toMarkdown));
  }

  method DeleteMdxFile(site: Site, dir: string, g: InfoItem)
    modifies site
    ensures site.files == old(site.files) - {FilePath(dir, g)}
    ensures site.gitLog == old(site.gitLog) && site.Env() == old(site.Env())
  {
    var _ := site.DeleteFile(FilePath(dir, g));
  }

  /** The files after `afterCreate`: a published item is written, anything
      else changes nothing. */
  function CreatedFiles(files: map<string, string>, dir: string, result: Option<InfoItem>,
                        toMarkdown: string -> string): map<string, string> {
    if result.Some? && IsPublished(result.value.publishedAt)
    then WriteOrRemove(files, FilePath(dir, result.value), GenerateMdx(result.value, toMarkdown), true)
    else files
  }

  /** The files after `afterUpdate`: a published item is written, an
      unpublished one removed. */
  function UpdatedFiles(files: map<string, string>, dir: string, result: Option<InfoItem>,
                        toMarkdown: string -> string): map<string, string> {
    if result.None? then files
    else WriteOrRemove(files, FilePath(dir, result.value), GenerateMdx(result.value, toMarkdown),
                       IsPublished(result.value.publishedAt))
  }

  /** The files after `afterDelete`: the item's file is removed. */
  function DeletedFiles(files: map<string, string>, dir: string, result: Option<InfoItem>): map<string, string> {
    if result.None? then files
    else WriteOrRemove(files, FilePath(dir, result.value), "", false)
  }

  method AfterCreate(site: Site, dir: string, result: Option<InfoItem>, toMarkdown: string -> string)
    modifies site
    ensures site.files == CreatedFiles(old(site.files), dir, result, toMarkdown)
    ensures site.gitLog == old(site.gitLog) && site.Env() == old(site.Env())
  {
    if result.Some? && IsPublished(result.value.publishedAt) {
      WriteMdxFile(site, dir, result.value, toMarkdown);
    }
  }

  method AfterUpdate(site: Site, dir: string, result: Option<InfoItem>, toMarkdown: string -> string)
    modifies site
    ensures site.files == UpdatedFiles(old(site.files), dir, result, toMarkdown)
    ensures site.gitLog == old(site.gitLog) && site.Env() == old(site.Env())
  {
    if result.Some? {
      if IsPublished(result.value.publishedAt) {
        WriteMdxFile(site, dir, result.value, toMarkdown);
      } else {
        DeleteMdxFile(site, dir, result.value);
      }
    }
  }

  method AfterDelete(site: Site, dir: string, result: Option<InfoItem>)
    modifies site
    ensures site.files == DeletedFiles(old(site.files), dir, result)
    ensures site.gitLog == old(site.gitLog) && site.Env() == old(site.Env())
  {
    if result.Some? {
      DeleteMdxFile(site, dir, result.value);
    }
  }

  /** `afterUpdate` leaves the item's file present exactly when the item is
      published, and touches no other file. */
  lemma UpdatePresentIffPublished(files: map<string, string>, dir: string, g: InfoItem,
                                  toMarkdown: string -> string, p: string)
    ensures var r := UpdatedFiles(files, dir, Some(g), toMarkdown);
      (FilePath(dir, g) in r <==> IsPublished(g.publishedAt))
      && (IsPublished(g.publishedAt) ==> r[FilePath(dir, g)] == GenerateMdx(g, toMarkdown))
      && (p != FilePath(dir, g) ==> (p in r <==> p in files) && (p in r ==> r[p] == files[p]))
  {
    WriteOrRemoveEffect(files, FilePath(dir, g), GenerateMdx(g, toMarkdown), IsPublished(g.publishedAt));
  }

  /** Retitling a published item so that its slug changes writes a second
      file and keeps the one under the old title: the hook only knows the new
      record. */
  lemma RetitleKeepsOldFile(files: map<string, string>, dir: string, before: InfoItem, after: InfoItem,
                           toMarkdown: string -> string)
    requires after.id == before.id && Slugify(after.title) != Slugify(before.title)
    requires IsPublished(after.publishedAt) && FilePath(dir, before) in files
    ensures var r := UpdatedFiles(files, dir, Some(after), toMarkdown);
      FilePath(dir, before) in r && FilePath(dir, after) in r
  {
    SameIdDistinctSlugs(before.title, after.title, after.id);
    if FilePath(dir, before) == FilePath(dir, after) {
      PathJoinInjective(dir, SlugIdFilename(before.title, before.id), SlugIdFilename(after.title, after.id));
    }
  }

  /** Publishing a new item and then deleting it leaves the directory as it
      was. */
  lemma CreateThenDelete(files: map<string, string>, dir: string, g: InfoItem, toMarkdown: string -> string)
    requires IsPublished(g.publishedAt) && FilePath(dir, g) !in files
    ensures DeletedFiles(CreatedFiles(files, dir, Some(g), toMarkdown), dir, Some(g)) == files
  {
    WriteThenRemove(files, FilePath(dir, g), GenerateMdx(g, toMarkdown));
  }
}
