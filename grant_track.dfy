/** The CMS lifecycle of a grant track: a published track is written as
    `<slugified name>-<id>.mdx` into the grant-tracks content directory, an
    unpublished or deleted one is removed. These hooks do not commit
    anything. */
module GrantTrackLifecycle {
  import opened Text
  import opened MdxDocument
  import opened Workspace
  import opened Slugs

  datatype GrantTrack = GrantTrack(id: int, name: string, amount: string, description: string,
                                   order: Option<int>, publishedAt: Option<string>)

  /** Where the tracks go when `GRANT_TRACK_MDX_OUTPUT_PATH` is not set. */
  const DefaultOutputDir: string := "src/content/grant-tracks"

  /** `order ?? 0` */
  function OrderOrZero(order: Option<int>): int {
    if order.Some? then order.value else 0
  }

  function Frontmatter(g: GrantTrack): seq<Entry> {
    [Field("name", Quoted(g.name)), Field("amount", Quoted(g.amount)),
     Field("order", Plain(IntToString(OrderOrZero(g.order)))),
     Field("description", Quoted(g.description))]
  }

  /** The description is both a frontmatter field and, converted, the body. */
  function GenerateMdx(g: GrantTrack, toMarkdown: string -> string): string {
    Document(Frontmatter(g), "\n" + toMarkdown(g.description) + "\n")
  }

  /** The written file reads back as the name, the amount, the order (0 when
      unset) and the raw description, then the converted description between
      an empty line and a final line break. */
  lemma GenerateMdxReadsBack(g: GrantTrack, toMarkdown: string -> string)
    requires '\n' !in g.name && '\n' !in g.amount && '\n' !in g.description
    ensures ReadDocument(GenerateMdx(g, toMarkdown)) == Some((
      [Field("name", Quoted(g.name)), Field("amount", Quoted(g.amount)),
       Field("order", Plain(IntToString(if g.order.Some? then g.order.value else 0))),
       Field("description", Quoted(g.description))],
      "\n" + toMarkdown(g.description) + "\n"))
  {
    FrontmatterGood(g);
    ReadDocumentOfDocument(Frontmatter(g), "\n" + toMarkdown(g.description) + "\n");
    hide ReadDocument, Document, GoodEntry;
  }

  lemma FrontmatterGood(g: GrantTrack)
    requires '\n' !in g.name && '\n' !in g.amount && '\n' !in g.description
    ensures forall i :: 0 <= i < |Frontmatter(g)| ==> GoodEntry(Frontmatter(g)[i])
  {
    assert GoodKey("name") && GoodKey("amount") && GoodKey("order") && GoodKey("description");
    PlainNumber(OrderOrZero(g.order));
    hide GoodKey, GoodValue;
    var es := Frontmatter(g);
    assert GoodEntry(es[0]) && GoodEntry(es[1]) && GoodEntry(es[2]) && GoodEntry(es[3]);
  }

  /** Write, delete and every hook use this one path. */
  function FilePath(dir: string, g: GrantTrack): string {
    PathJoin(dir, SlugIdFilename(g.name, g.id))
  }

  /** Two tracks with different non-negative ids never share a file, even
      when their names slugify alike. */
  lemma DistinctIdsDistinctPaths(dir: string, a: GrantTrack, b: GrantTrack)
    requires a.id >= 0 && b.id >= 0 && a.id != b.id
    ensures FilePath(dir, a) != FilePath(dir, b)
  {
    if FilePath(dir, a) == FilePath(dir, b) {
      PathJoinInjective(dir, SlugIdFilename(a.name, a.id), SlugIdFilename(b.name, b.id));
      FilenameIdentifiesId(a.name, a.id, b.name, b.id);
    }
  }

  // ---------------------------------------------------------------------
  // Hooks

  method WriteMdxFile(site: Site, dir: string, g: GrantTrack, toMarkdown: string -> string)
    modifies site
    ensures site.files == old(site.files)[FilePath(dir, g) := GenerateMdx(g, toMarkdown)]
    ensures site.gitLog == old(site.gitLog) && site.Env() == old(site.Env())
  {
    site.WriteFile(FilePath(dir, g), GenerateMdx(g, toMarkdown));
  }

  method DeleteMdxFile(site: Site, dir: string, g: GrantTrack)
    modifies site
    ensures site.files == old(site.files) - {FilePath(dir, g)}
    ensures site.gitLog == old(site.gitLog) && site.Env() == old(site.Env())
  {
    var _ := site.DeleteFile(FilePath(dir, g));
  }

  /** The files after `afterCreate`: a published track is written, anything
      else changes nothing. */
  function CreatedFiles(files: map<string, string>, dir: string, result: Option<GrantTrack>,
                        toMarkdown: string -> string): map<string, string> {
    if result.Some? && IsPublished(result.value.publishedAt)
    then WriteOrRemove(files, FilePath(dir, result.value), GenerateMdx(result.value, toMarkdown), true)
    else files
  }

  /** The files after `afterUpdate`: a published track is written, an
      unpublished one removed. */
  function UpdatedFiles(files: map<string, string>, dir: string, result: Option<GrantTrack>,
                        toMarkdown: string -> string): map<string, string> {
    if result.None? then files
    else WriteOrRemove(files, FilePath(dir, result.value), GenerateMdx(result.value, toMarkdown),
                       IsPublished(result.value.publishedAt))
  }

  /** The files after `afterDelete`: the track's file is removed. */
  function DeletedFiles(files: map<string, string>, dir: string, result: Option<GrantTrack>): map<string, string> {
    if result.None? then files
    else WriteOrRemove(files, FilePath(dir, result.value), "", false)
  }

  method AfterCreate(site: Site, dir: string, result: Option<GrantTrack>, toMarkdown: string -> string)
    modifies site
    ensures site.files == CreatedFiles(old(site.files), dir, result, toMarkdown)
    ensures site.gitLog == old(site.gitLog) && site.Env() == old(site.Env())
  {
    if result.Some? && IsPublished(result.value.publishedAt) {
      WriteMdxFile(site, dir, result.value, toMarkdown);
    }
  }

  method AfterUpdate(site: Site, dir: string, result: Option<GrantTrack>, toMarkdown: string -> string)
    modifies site
    ensures site.files == UpdatedFiles(old(site.files), dir, result, toMarkdown)
    ensures site.gitLog == old(site.gitLog) && site.Env() == old(site.Env())
  {
    if result.Some? {
      if IsPublished(result.value.publishedAt) {
        WriteMdxFile(site, dir, result.value, toMarkdown);
      } else {
        DeleteMdxFile(site, dir, result.value);
      }
    }
  }

  method AfterDelete(site: Site, dir: string, result: Option<GrantTrack>)
    modifies site
    ensures site.files == DeletedFiles(old(site.files), dir, result)
    ensures site.gitLog == old(site.gitLog) && site.Env() == old(site.Env())
  {
    if result.Some? {
      DeleteMdxFile(site, dir, result.value);
    }
  }

  /** `afterUpdate` leaves the track's file present exactly when the track is
      published, and touches no other file. */
  lemma UpdatePresentIffPublished(files: map<string, string>, dir: string, g: GrantTrack,
                                  toMarkdown: string -> string, p: string)
    ensures var r := UpdatedFiles(files, dir, Some(g), toMarkdown);
      (FilePath(dir, g) in r <==> IsPublished(g.publishedAt))
      && (IsPublished(g.publishedAt) ==> r[FilePath(dir, g)] == GenerateMdx(g, toMarkdown))
      && (p != FilePath(dir, g) ==> (p in r <==> p in files) && (p in r ==> r[p] == files[p]))
  {
    WriteOrRemoveEffect(files, FilePath(dir, g), GenerateMdx(g, toMarkdown), IsPublished(g.publishedAt));
  }

  /** Renaming a published track so that its slug changes writes a second
      file and keeps the one under the old name: the hook only knows the new
      record. */
  lemma RenameKeepsOldFile(files: map<string, string>, dir: string, before: GrantTrack, after: GrantTrack,
                           toMarkdown: string -> string)
    requires after.id == before.id && Slugify(after.name) != Slugify(before.name)
    requires IsPublished(after.publishedAt) && FilePath(dir, before) in files
    ensures var r := UpdatedFiles(files, dir, Some(after), toMarkdown);
      FilePath(dir, before) in r && FilePath(dir, after) in r
  {
    SameIdDistinctSlugs(before.name, after.name, after.id);
    if FilePath(dir, before) == FilePath(dir, after) {
      PathJoinInjective(dir, SlugIdFilename(before.name, before.id), SlugIdFilename(after.name, after.id));
    }
  }

  /** Publishing a new track and then deleting it leaves the directory as it
      was. */
  lemma CreateThenDelete(files: map<string, string>, dir: string, g: GrantTrack, toMarkdown: string -> string)
    requires IsPublished(g.publishedAt) && FilePath(dir, g) !in files
    ensures DeletedFiles(CreatedFiles(files, dir, Some(g), toMarkdown), dir, Some(g)) == files
  {
    WriteThenRemove(files, FilePath(dir, g), GenerateMdx(g, toMarkdown));
  }
}
