/** The CMS lifecycle of a news event: a published event is written as
    `<slug>.mdx` into the events content directory and committed; an
    unpublished or deleted one is removed, and the removal is committed too. */
module NewsEventLifecycle {
  import opened Text
  import opened MdxDocument
  import opened Workspace
  import SyncMdx

  /** An event as the CMS passes it to the hooks; `order` is absent when not
      set. */
  datatype NewsEvent = NewsEvent(id: int, title: string, slug: string, order: Option<int>,
                                 content: string, publishedAt: Option<string>)

  /** Where the events go when `EVENTS_MDX_OUTPUT_PATH` is not set. */
  const DefaultOutputDir: string := "src/content/events"

  function GenerateFilename(e: NewsEvent): (name: string)
    ensures EndsWith(name, ".mdx") && name[..|name| - 4] == e.slug
  {
    e.slug + ".mdx"
  }

  /** `order || 0` */
  function OrderOrZero(order: Option<int>): int {
    if order.Some? then order.value else 0
  }

  function Frontmatter(e: NewsEvent): seq<Entry> {
    [Field("title", Quoted(e.title)), Field("order", Plain(IntToString(OrderOrZero(e.order))))]
  }

  /** The converted content, or nothing when there is no content. */
  function Body(e: NewsEvent, toMarkdown: string -> string): string {
    if e.content != "" then toMarkdown(e.content) else ""
  }

  function GenerateMdx(e: NewsEvent, toMarkdown: string -> string): string {
    Document(Frontmatter(e), "\n" + Body(e, toMarkdown) + "\n")
  }

  /** The written file reads back as exactly two fields, the title (quoted,
      so any text survives) and the order, 0 when unset, followed by the
      converted body between an empty line and a final line break. */
  lemma GenerateMdxReadsBack(e: NewsEvent, toMarkdown: string -> string)
    requires '\n' !in e.title
    ensures ReadDocument(GenerateMdx(e, toMarkdown)) == Some((
      [Field("title", Quoted(e.title)),
       Field("order", Plain(IntToString(if e.order.Some? then e.order.value else 0)))],
      "\n" + (if e.content != "" then toMarkdown(e.content) else "") + "\n"))
  {
    PlainNumber(OrderOrZero(e.order));
    ReadDocumentOfDocument(Frontmatter(e), "\n" + Body(e, toMarkdown) + "\n");
  }

  /** The slug the MDX synchronisation derives from the file name is the
      event's slug, unless the slug itself starts with a date. */
  lemma FilenameGivesSlug(e: NewsEvent)
    requires !SyncMdx.HasDatePrefix(e.slug)
    ensures SyncMdx.NameSlug(GenerateFilename(e)) == e.slug
  {
    SyncMdx.NameSlugOf("2000-01-01", e.slug);
  }

  /** Write, delete and every hook use this one path. */
  function FilePath(dir: string, e: NewsEvent): string {
    PathJoin(dir, GenerateFilename(e))
  }

  /** Two events with different slugs never share a file. */
  lemma DistinctSlugsDistinctPaths(dir: string, a: NewsEvent, b: NewsEvent)
    requires a.slug != b.slug
    ensures FilePath(dir, a) != FilePath(dir, b)
  {
    if FilePath(dir, a) == FilePath(dir, b) {
      PathJoinInjective(dir, GenerateFilename(a), GenerateFilename(b));
    }
  }

  // ---------------------------------------------------------------------
  // Hooks

  method WriteMdxFile(site: Site, dir: string, e: NewsEvent, toMarkdown: string -> string)
    modifies site
    ensures site.files == old(site.files)[FilePath(dir, e) := GenerateMdx(e, toMarkdown)]
    ensures site.gitLog == old(site.gitLog) && site.Env() == old(site.Env())
  {
    site.WriteFile(FilePath(dir, e), GenerateMdx(e, toMarkdown));
  }

  method DeleteMdxFile(site: Site, dir: string, e: NewsEvent)
    modifies site
    ensures site.files == old(site.files) - {FilePath(dir, e)}
    ensures site.gitLog == old(site.gitLog) && site.Env() == old(site.Env())
  {
    var _ := site.DeleteFile(FilePath(dir, e));
  }

  /** The commit message of a hook: `events: <verb> "<title>"`. */
  function Message(verb: string, e: NewsEvent): string {
    "events: " + verb + " \"" + e.title + "\""
  }

  /** The files after `afterCreate`: a published event is written, anything
      else changes nothing. */
  function CreatedFiles(files: map<string, string>, dir: string, result: Option<NewsEvent>,
                        toMarkdown: string -> string): map<string, string> {
    if result.Some? && IsPublished(result.value.publishedAt)
    then WriteOrRemove(files, FilePath(dir, result.value), GenerateMdx(result.value, toMarkdown), true)
    else files
  }

  /** The files after `afterUpdate`: a published event is written, an
      unpublished one removed. */
  function UpdatedFiles(files: map<string, string>, dir: string, result: Option<NewsEvent>,
                        toMarkdown: string -> string): map<string, string> {
    if result.None? then files
    else WriteOrRemove(files, FilePath(dir, result.value), GenerateMdx(result.value, toMarkdown),
                       IsPublished(result.value.publishedAt))
  }

  /** The files after `afterDelete`: the event's file is removed. */
  function DeletedFiles(files: map<string, string>, dir: string, result: Option<NewsEvent>): map<string, string> {
    if result.None? then files
    else WriteOrRemove(files, FilePath(dir, result.value), "", false)
  }

  method AfterCreate(site: Site, dir: string, result: Option<NewsEvent>, toMarkdown: string -> string)
    modifies site
    ensures site.files == CreatedFiles(old(site.files), dir, result, toMarkdown)
    ensures site.Env() == old(site.Env())
    ensures site.gitLog == old(site.gitLog) + if result.Some? && IsPublished(result.value.publishedAt)
      then site.GitRun(FilePath(dir, result.value), Message("add", result.value)) else []
  {
    if result.Some? && IsPublished(result.value.publishedAt) {
      WriteMdxFile(site, dir, result.value, toMarkdown);
      site.GitCommitAndPush(FilePath(dir, result.value), Message("add", result.value));
    }
  }

  method AfterUpdate(site: Site, dir: string, result: Option<NewsEvent>, toMarkdown: string -> string)
    modifies site
    ensures site.files == UpdatedFiles(old(site.files), dir, result, toMarkdown)
    ensures site.Env() == old(site.Env())
    ensures site.gitLog == old(site.gitLog) + if result.None? then []
      else site.GitRun(FilePath(dir, result.value),
                       Message(if IsPublished(result.value.publishedAt) then "update" else "unpublish", result.value))
  {
    if result.Some? {
      var path := FilePath(dir, result.value);
      if IsPublished(result.value.publishedAt) {
        WriteMdxFile(site, dir, result.value, toMarkdown);
        site.GitCommitAndPush(path, Message("update", result.value));
      } else {
        DeleteMdxFile(site, dir, result.value);
        site.GitCommitAndPush(path, Message("unpublish", result.value));
      }
    }
  }

  method AfterDelete(site: Site, dir: string, result: Option<NewsEvent>)
    modifies site
    ensures site.files == DeletedFiles(old(site.files), dir, result)
    ensures site.Env() == old(site.Env())
    ensures site.gitLog == old(site.gitLog) + if result.None? then []
      else site.GitRun(FilePath(dir, result.value), Message("delete", result.value))
  {
    if result.Some? {
      DeleteMdxFile(site, dir, result.value);
      site.GitCommitAndPush(FilePath(dir, result.value), Message("delete", result.value));
    }
  }

  /** `afterCreate` writes the event's file when the event is published,
      changes nothing otherwise, and touches no other file. */
  lemma CreateWritesIffPublished(files: map<string, string>, dir: string, e: NewsEvent,
                                 toMarkdown: string -> string, p: string)
    ensures var r := CreatedFiles(files, dir, Some(e), toMarkdown);
      (IsPublished(e.publishedAt) ==> FilePath(dir, e) in r && r[FilePath(dir, e)] == GenerateMdx(e, toMarkdown))
      && (!IsPublished(e.publishedAt) ==> r == files)
      && (p != FilePath(dir, e) ==> (p in r <==> p in files) && (p in r ==> r[p] == files[p]))
  {
    WriteOrRemoveEffect(files, FilePath(dir, e), GenerateMdx(e, toMarkdown), true);
  }

  /** `afterUpdate` leaves the event's file present exactly when the event is
      published, and touches no other file. */
  lemma UpdatePresentIffPublished(files: map<string, string>, dir: string, e: NewsEvent,
                                  toMarkdown: string -> string, p: string)
    ensures var r := UpdatedFiles(files, dir, Some(e), toMarkdown);
      (FilePath(dir, e) in r <==> IsPublished(e.publishedAt))
      && (IsPublished(e.publishedAt) ==> r[FilePath(dir, e)] == GenerateMdx(e, toMarkdown))
      && (p != FilePath(dir, e) ==> (p in r <==> p in files) && (p in r ==> r[p] == files[p]))
  {
    WriteOrRemoveEffect(files, FilePath(dir, e), GenerateMdx(e, toMarkdown), IsPublished(e.publishedAt));
  }

  /** Deleting an event whose file is not there changes nothing. */
  lemma DeleteAbsentNoop(files: map<string, string>, dir: string, e: NewsEvent)
    requires FilePath(dir, e) !in files
    ensures DeletedFiles(files, dir, Some(e)) == files
  {
    RemoveAbsent(files, FilePath(dir, e), "");
  }

  /** Publishing a new event and then deleting it leaves the content
      directory as it was. */
  lemma CreateThenDelete(files: map<string, string>, dir: string, e: NewsEvent, toMarkdown: string -> string)
    requires IsPublished(e.publishedAt) && FilePath(dir, e) !in files
    ensures DeletedFiles(CreatedFiles(files, dir, Some(e), toMarkdown), dir, Some(e)) == files
  {
    WriteThenRemove(files, FilePath(dir, e), GenerateMdx(e, toMarkdown));
  }
}
