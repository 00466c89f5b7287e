# interledger.org-developers content pipeline, in Dafny

A Dafny model of the content pipeline of the Interledger developers site.
Content lives in two places: the Strapi CMS and the `.mdx` files under
`src/content`. Four groups of code keep the two in step.

- **CMS lifecycle hooks.** These cover blog posts, news events, press items,
  grant tracks, info items and the financial services page. When an entry is
  published, its hook renders it as an MDX document, a `---` frontmatter block
  followed by the body. The hook writes that document into the working tree
  and, for some content types, commits and pushes it with git. When the entry
  is unpublished or deleted, the hook removes the file.
- **Maintenance scripts.**
  - `sync-mdx` reads the MDX files back, creates or updates one CMS entry per
    file, and deletes the CMS entries that no file claims.
  - `export-translations` writes one file per locale still to translate.
  - `import-translations` turns translated files into CMS posts.
  - `audit-images` flags the uploaded originals that have no WebP or AVIF
    version.
- **The press webhook.** It turns a signed Strapi payload into a press file.
- **Site helpers.** These are the language and path helpers of the
  two-language site, tag links, the anchors of the specification page, the
  CMS client URL, the admin preview link and the field-label set-up of the
  CMS bootstrap.

The model follows the form of the code:
- The working tree is a class `Workspace.Site`. Its fields are the files, keyed
  by path, and the log of git steps run. The hooks are methods that modify it.
- The loops of the scripts are methods with loop invariants. Each one is
  proved against a function that specifies its result.
- The renderers and the parsers are functions. The lemmas beside them prove
  that their outputs read back:
  - the rendered frontmatter yields the entries it was made from;
  - an exported translation file yields its fields and its content to the
    importer's parser;
  - the escaped quotes and shell words give back their input;
  - a file name made by the exporter yields its slug, date and language to
    the importer;
  - a translated path yields its English path and its language.
- Where a script does something its authors evidently did not intend, the
  model follows the script and proves the discrepancy, beside a corrected
  definition with the intended property proved (see Findings below). The
  image audit takes its keying as a parameter and the MDX synchronisation its
  claim test; the script's own runs use the keying and the test as written.
- Library calls the code relies on become parameters of the operations that
  use them. These are the HTML↔Markdown converters, `JSON.stringify`,
  `JSON.parse`, date formatting, the HMAC and the CMS requests. A failing
  request is modelled as a set of the keys whose request fails.

## Model

| member | source | states |
|---|---|---|
| Escapes.UnescapeEscape | cms/scripts/export-translations.ts:52-54 | escaping every `"` as `\"` loses nothing: reading `\"` back as `"` recovers the input |
| Escapes.EscapeLength | cms/scripts/export-translations.ts:52-54 | the output is the input plus exactly one backslash for each `"` |
| Escapes.EscapeQuoteFree | cms/scripts/export-translations.ts:52-54 | a text without `"` is left unchanged |
| Escapes.EscapedHead | cms/scripts/export-translations.ts:52-54 | an escaped text never starts with a bare `"` |
| FrontmatterBlock.FindDelim | cms/scripts/import-translations.ts:63-64 | the first index at or after `k` where `\n---\n` starts, or -1 exactly when there is none |
| FrontmatterBlock.MatchBlock | cms/scripts/import-translations.ts:63-68 | the regular expression matches iff the text starts with `---\n` and has a `\n---\n` at index 4 or later; the match splits the text into opening, the shortest frontmatter, closing and body |
| FrontmatterBlock.DocumentMatches | cms/scripts/import-translations.ts:63-68 | a document made of lines in which no line break is followed by `-` matches with exactly those lines as frontmatter and the given body |
| FrontmatterBlock.MatchAt | cms/scripts/import-translations.ts:63-68 | the match ends at the first delimiter after the opening line |
| FrontmatterBlock.KeyValue | cms/scripts/import-translations.ts:73-81 | a line contributes iff its first colon has a character before it |
| FrontmatterBlock.KeyValueOfField | cms/scripts/import-translations.ts:73-81 | a serialised `key: value` line with a colon-free key and no white space around key or value reads back as that key and value |
| FrontmatterBlock.KeyValueOfNestedField | cms/scripts/import-translations.ts:73-81 | the same for a line indented by two spaces |
| FrontmatterBlock.KeyValueOfBareKey | cms/scripts/import-translations.ts:73-81 | a bare `key:` line gives the empty value |
| FrontmatterBlock.FoldFieldsKeys | cms/scripts/import-translations.ts:73-81 | a key is in the parsed object iff some line defines it |
| FrontmatterBlock.FoldFieldsLast | cms/scripts/import-translations.ts:73-81 | the value kept for a key is the one from the last line defining it |
| FrontmatterBlock.FoldFieldsAppend | cms/scripts/import-translations.ts:73-81 | parsing `a` then `b` is the object of `a` overridden by the object of `b` |
| FrontmatterBlock.FoldFieldsSingle | cms/scripts/import-translations.ts:73-81 | one line gives the one-entry object, or nothing when it does not contribute |
| OrderedDict.Find | cms/scripts/export-translations.ts:262-264 | a lookup is absent exactly when the key is not among the keys |
| OrderedDict.Put | cms/scripts/export-translations.ts:286-289 | assigning an existing key keeps its place and replaces the value; a new key goes last |
| OrderedDict.PutKeyed | cms/scripts/export-translations.ts:286-289 | assignment keeps the keys distinct |
| OrderedDict.Single | cms/scripts/export-translations.ts:262-264 | `{ k: v }` has the one key `k` holding `v` |
| OrderedDict.PutAllKeyed | cms/src/api/blog-post/content-types/blog-post/lifecycles.ts:153-172 | assigning a run of entries keeps the keys distinct |
| OrderedDict.PutAllFind | cms/src/api/blog-post/content-types/blog-post/lifecycles.ts:153-172 | after assigning a run of entries, a key holds the value of the last entry with that key, and a key no entry names is untouched |
| OrderedDict.PutAllSnoc | cms/src/api/blog-post/content-types/blog-post/lifecycles.ts:153-172 | assigning one more entry is one more assignment after the others |
| MdxDocument.OptionalField | cms/src/api/blog-post/content-types/blog-post/lifecycles.ts:99-101 | an optional text field yields one quoted line iff it is set and not empty, else none |
| MdxDocument.ReadLineOfLine | cms/scripts/import-translations.ts:73-81 | every well-formed entry reads back from its own line, which has no line break and does not start with `-` |
| MdxDocument.ReadLinesOfLines | cms/scripts/import-translations.ts:73-81 | the lines of well-formed entries read back as exactly those entries |
| MdxDocument.ReadDocumentOfDocument | cms/src/api/news-event/content-types/news-event/lifecycles.ts:67-76 | a document rendered as `---\n` + lines + `\n---\n` + body from well-formed entries reads back as exactly those entries and that body |
| MdxDocument.PlainNumber | cms/src/api/news-event/content-types/news-event/lifecycles.ts:70 | a decimal number written as it is reads back |
| MdxDocument.LinesConcat | cms/src/api/press-item/content-types/press-item/lifecycles.ts:58-68 | the lines of two runs of entries are the lines of each, in order |
| Workspace.Site.WriteFile | cms/src/api/news-event/content-types/news-event/lifecycles.ts:79-95 | writing sets the one path to the text and changes nothing else |
| Workspace.Site.DeleteFile | cms/src/api/news-event/content-types/news-event/lifecycles.ts:97-109 | deleting removes the path, and reports whether it existed; an absent path changes nothing |
| Workspace.Site.GitCommitAndPush | cms/src/utils/gitSync.ts:13-56 | appends exactly the git steps that run to the log and touches no file |
| Workspace.Site.GitRun | cms/src/utils/gitSync.ts:17-20 | no step runs when sync is disabled; otherwise the `git add` step always runs, and all four when none fails |
| Workspace.EnvOr | cms/src/api/news-event/content-types/news-event/lifecycles.ts:80-81 | an unset or empty variable gives the default directory, else its value |
| Workspace.WriteOrRemoveEffect | cms/src/api/news-event/content-types/news-event/lifecycles.ts:125-142 | a hook decides its one path (written when published, absent otherwise) and keeps every other file |
| Workspace.RemoveAbsent | cms/src/api/news-event/content-types/news-event/lifecycles.ts:105-108 | removing an absent path changes nothing |
| Workspace.WriteOrRemoveIdempotent | cms/src/api/news-event/content-types/news-event/lifecycles.ts:125-142 | running the same hook twice is running it once |
| Workspace.WriteThenRemove | cms/src/api/news-event/content-types/news-event/lifecycles.ts:125-142 | publishing a new path then unpublishing it gives back the files |
| Workspace.PathJoinInjective | cms/src/api/news-event/content-types/news-event/lifecycles.ts:89-90 | two names in one directory are two paths |
| GitSync.EscapeForShell | cms/src/utils/gitSync.ts:5-7 | a text without `'` is unchanged, and escaping never shortens |
| GitSync.EscapedReadsBack | cms/src/utils/gitSync.ts:5-7 | inside an open quote, the escaped text and a closing quote read back as the original text under POSIX shell quoting |
| GitSync.QuotedWordReadsBack | cms/src/utils/gitSync.ts:38-39 | quoting an escaped text gives one shell word that reads back as the text |
| GitSync.AddPaths | cms/src/utils/gitSync.ts:27-34 | the staged paths are the escaped file, plus the escaped `public/uploads` iff that directory exists |
| GitSync.QuoteAll | cms/src/utils/gitSync.ts:38-39 | one quoted word per path, in order |
| GitSync.GitSteps | cms/src/utils/gitSync.ts:37-42 | four steps in order: `git add` of the quoted paths, `git commit -m` with the quoted escaped message, `git pull --rebase`, `git push` |
| GitSync.AddArgumentsReadBack | cms/src/utils/gitSync.ts:27-39 | the words of the `git add` step read back as the file path and, when present, the uploads directory |
| GitSync.Executed | cms/src/utils/gitSync.ts:42 | a `&&` chain runs a prefix of its steps: all of them when none fails, up to and including the failing one otherwise |
| GitSync.LaterStepsNeedSuccess | cms/src/utils/gitSync.ts:42 | a step runs iff no earlier step failed |
| GitSync.SyncDisabled | cms/src/utils/gitSync.ts:17 | sync is off iff the variable is exactly `true` |
| NewsEventLifecycle.GenerateFilename | cms/src/api/news-event/content-types/news-event/lifecycles.ts:63-65 | the file name is the slug followed by `.mdx`, and the slug is recovered by dropping `.mdx` |
| NewsEventLifecycle.GenerateMdxReadsBack | cms/src/api/news-event/content-types/news-event/lifecycles.ts:67-76 | the file reads back as exactly two fields, the quoted title and the order (0 when unset), then the converted content, empty when there is none, between an empty line and a final line break |
| NewsEventLifecycle.FilenameGivesSlug | cms/src/api/news-event/content-types/news-event/lifecycles.ts:63-65 | the MDX synchronisation derives the event's own slug from the file name, unless the slug starts with a date |
| NewsEventLifecycle.DistinctSlugsDistinctPaths | cms/src/api/news-event/content-types/news-event/lifecycles.ts:89-90 | two events with different slugs never share a file |
| NewsEventLifecycle.WriteMdxFile | cms/src/api/news-event/content-types/news-event/lifecycles.ts:79-95 | writes the generated document at the event's path and nothing else |
| NewsEventLifecycle.DeleteMdxFile | cms/src/api/news-event/content-types/news-event/lifecycles.ts:97-109 | removes the event's path if present and nothing else |
| NewsEventLifecycle.AfterCreate | cms/src/api/news-event/content-types/news-event/lifecycles.ts:112-123 | a published event is written and committed as `events: add "<title>"`; anything else changes nothing |
| NewsEventLifecycle.AfterUpdate | cms/src/api/news-event/content-types/news-event/lifecycles.ts:125-142 | a published event is written and committed as an update, an unpublished one removed and committed as an unpublish |
| NewsEventLifecycle.AfterDelete | cms/src/api/news-event/content-types/news-event/lifecycles.ts:144-155 | the event's file is removed and the removal committed |
| NewsEventLifecycle.CreateWritesIffPublished | cms/src/api/news-event/content-types/news-event/lifecycles.ts:112-123 | creation writes the event's file iff it is published and touches no other file |
| NewsEventLifecycle.UpdatePresentIffPublished | cms/src/api/news-event/content-types/news-event/lifecycles.ts:125-142 | after an update the event's file is present iff the event is published, and no other file changes |
| NewsEventLifecycle.DeleteAbsentNoop | cms/src/api/news-event/content-types/news-event/lifecycles.ts:105-108 | deleting an event whose file is absent changes no file |
| NewsEventLifecycle.CreateThenDelete | cms/src/api/news-event/content-types/news-event/lifecycles.ts:112-155 | publishing a new event then deleting it leaves the files as they were |
| PressItemLifecycle.GenerateMdxReadsBack | cms/src/api/press-item/content-types/press-item/lifecycles.ts:57-86 | the file reads back as title, description, publishDate, slug, each set non-empty optional text, featured as bare `true`/`false`, and category, in that order, then the converted body |
| PressItemLifecycle.OptionalKeysIffSet | cms/src/api/press-item/content-types/press-item/lifecycles.ts:63-65 | `publication`, `publicationLogo` and `externalUrl` are written iff the item has that text set and non-empty |
| PressItemLifecycle.DistinctSlugsDistinctPaths | cms/src/api/press-item/content-types/press-item/lifecycles.ts:101-102 | two different slugs never share a file |
| PressItemLifecycle.WriteMdxFile | cms/src/api/press-item/content-types/press-item/lifecycles.ts:91-107 | writes the document at `<slug>.mdx` and nothing else; nothing is committed |
| PressItemLifecycle.DeleteMdxFile | cms/src/api/press-item/content-types/press-item/lifecycles.ts:112-123 | removes `<slug>.mdx` if present and nothing else |
| PressItemLifecycle.AfterCreate | cms/src/api/press-item/content-types/press-item/lifecycles.ts:126-131 | a published item is written, anything else changes nothing |
| PressItemLifecycle.AfterUpdate | cms/src/api/press-item/content-types/press-item/lifecycles.ts:133-143 | a published item is written, an unpublished one removed |
| PressItemLifecycle.AfterDelete | cms/src/api/press-item/content-types/press-item/lifecycles.ts:145-150 | the item's file is removed |
| PressItemLifecycle.UpdatePresentIffPublished | cms/src/api/press-item/content-types/press-item/lifecycles.ts:133-143 | after an update the item's file is present iff it is published, and no other file changes |
| PressItemLifecycle.CreateWritesIffPublished | cms/src/api/press-item/content-types/press-item/lifecycles.ts:126-131 | creation writes the file for a published item and changes nothing otherwise |
| PressItemLifecycle.CreateThenDelete | cms/src/api/press-item/content-types/press-item/lifecycles.ts:126-150 | publishing a new item then deleting it leaves the files as they were |
| Slugs.CollapseShape | cms/src/api/grant-track/content-types/grant-track/lifecycles.ts:39 | replacing every run of characters outside a–z and 0–9 by one `-` leaves only slug characters and never two dashes in a row |
| Slugs.CollapseOfCollapsed | cms/src/api/grant-track/content-types/grant-track/lifecycles.ts:39 | a text that is already collapsed is its own collapse |
| Slugs.StripCollapsed | cms/src/api/grant-track/content-types/grant-track/lifecycles.ts:40 | on a collapsed text, dropping one dash at each end drops every edge dash and leaves a slug |
| Slugs.SlugifyIsSlug | cms/src/api/grant-track/content-types/grant-track/lifecycles.ts:35-41 | whatever the input, the slug has only a–z, 0–9 and `-`, no edge dash and no `--` |
| Slugs.SlugifyOfSlug | cms/src/api/grant-track/content-types/grant-track/lifecycles.ts:35-41 | a slug slugifies to itself |
| Slugs.SlugifyIdempotent | cms/src/api/grant-track/content-types/grant-track/lifecycles.ts:35-41 | slugifying twice is slugifying once |
| Slugs.SlugifiersAgree | scripts/strapi-webhook.mjs:15-20 | the webhook's slugify, which strips every edge dash, equals the lifecycles' one, which strips one at each end |
| Slugs.SlugIdFilename | cms/src/api/grant-track/content-types/grant-track/lifecycles.ts:69 | the file name ends with `.mdx` |
| Slugs.FilenameIdentifiesId | cms/src/api/grant-track/content-types/grant-track/lifecycles.ts:69 | two records with different non-negative ids never share a file name, whatever their names |
| Slugs.SameIdDistinctSlugs | cms/src/api/grant-track/content-types/grant-track/lifecycles.ts:69 | the same id with names of different slugs gives different file names |
| Slugs.SlugifyAllOfSlug | scripts/strapi-webhook.mjs:15-20 | a slug is its own webhook slug; with PressItemIsSlug this covers the fallback `press-item` |
| Slugs.PressItemIsSlug | scripts/strapi-webhook.mjs:79 | the webhook's fallback `press-item` is a slug |
| Slugs.NoAlnumEmptySlug | scripts/strapi-webhook.mjs:15-20 | a name with no ASCII letter or digit, such as `!!!`, has the empty slug under either slugify |
| GrantTrackLifecycle.GenerateMdxReadsBack | cms/src/api/grant-track/content-types/grant-track/lifecycles.ts:47-58 | the file reads back as exactly name, amount (both quoted), order (0 when unset) and the raw description quoted, then the converted description as body |
| GrantTrackLifecycle.DistinctIdsDistinctPaths | cms/src/api/grant-track/content-types/grant-track/lifecycles.ts:69-70 | two tracks with different non-negative ids never share a file, even when their names slugify alike |
| GrantTrackLifecycle.WriteMdxFile | cms/src/api/grant-track/content-types/grant-track/lifecycles.ts:60-75 | writes the document at `<slug>-<id>.mdx` and nothing else |
| GrantTrackLifecycle.DeleteMdxFile | cms/src/api/grant-track/content-types/grant-track/lifecycles.ts:77-88 | removes the same path if present and nothing else |
| GrantTrackLifecycle.AfterCreate | cms/src/api/grant-track/content-types/grant-track/lifecycles.ts:91-96 | a published track is written, anything else changes nothing |
| GrantTrackLifecycle.AfterUpdate | cms/src/api/grant-track/content-types/grant-track/lifecycles.ts:97-106 | a published track is written, an unpublished one removed |
| GrantTrackLifecycle.AfterDelete | cms/src/api/grant-track/content-types/grant-track/lifecycles.ts:107-112 | the track's file is removed |
| GrantTrackLifecycle.UpdatePresentIffPublished | cms/src/api/grant-track/content-types/grant-track/lifecycles.ts:97-106 | after an update the track's file is present iff it is published, and no other file changes |
| GrantTrackLifecycle.RenameKeepsOldFile | cms/src/api/grant-track/content-types/grant-track/lifecycles.ts:97-106 | renaming a published track to a name of another slug writes a second file and keeps the old one |
| GrantTrackLifecycle.CreateThenDelete | cms/src/api/grant-track/content-types/grant-track/lifecycles.ts:91-112 | publishing a new track then deleting it leaves the files as they were |
| InfoItemLifecycle.GenerateMdxReadsBack | cms/src/api/info-item/content-types/info-item/lifecycles.ts:46-56 | the file reads back as exactly title, the raw HTML content (both quoted) and order (0 when unset), then the converted content as body |
| InfoItemLifecycle.DistinctIdsDistinctPaths | cms/src/api/info-item/content-types/info-item/lifecycles.ts:66 | two items with different non-negative ids never share a file |
| InfoItemLifecycle.WriteMdxFile | cms/src/api/info-item/content-types/info-item/lifecycles.ts:58-72 | writes the document at `<slug>-<id>.mdx` and nothing else |
| InfoItemLifecycle.DeleteMdxFile | cms/src/api/info-item/content-types/info-item/lifecycles.ts:74-84 | removes the same path if present and nothing else |
| InfoItemLifecycle.AfterCreate | cms/src/api/info-item/content-types/info-item/lifecycles.ts:87-92 | a published item is written, anything else changes nothing |
| InfoItemLifecycle.AfterUpdate | cms/src/api/info-item/content-types/info-item/lifecycles.ts:93-102 | a published item is written, an unpublished one removed |
| InfoItemLifecycle.AfterDelete | cms/src/api/info-item/content-types/info-item/lifecycles.ts:103-108 | the item's file is removed |
| InfoItemLifecycle.UpdatePresentIffPublished | cms/src/api/info-item/content-types/info-item/lifecycles.ts:93-102 | after an update the item's file is present iff it is published, and no other file changes |
| InfoItemLifecycle.RetitleKeepsOldFile | cms/src/api/info-item/content-types/info-item/lifecycles.ts:93-102 | retitling a published item to a title of another slug writes a second file and keeps the old one |
| InfoItemLifecycle.CreateThenDelete | cms/src/api/info-item/content-types/info-item/lifecycles.ts:87-108 | publishing a new item then deleting it leaves the files as they were |
| FinancialServicesLifecycle.OrElse | cms/src/api/financial-services-page/content-types/financial-services-page/lifecycles.ts:36-39 | an unset or empty text gives the fallback, any other text is kept |
| FinancialServicesLifecycle.CallToAction | cms/src/api/financial-services-page/content-types/financial-services-page/lifecycles.ts:36-39 | the four call-to-action fields in order, the labels falling back to `Contact Us` and `Subscribe for Updates` |
| FinancialServicesLifecycle.GenerateMdx | cms/src/api/financial-services-page/content-types/financial-services-page/lifecycles.ts:27-46 | the page has no body: the document ends with the closing `---` line |
| FinancialServicesLifecycle.GenerateMdxReadsBack | cms/src/api/financial-services-page/content-types/financial-services-page/lifecycles.ts:27-46 | with single-line texts and a single-line FAQ JSON, the file reads back as the hero fields, the notice when set, the call to action and the FAQ items, and an empty body |
| FinancialServicesLifecycle.DefaultsApplied | cms/src/api/financial-services-page/content-types/financial-services-page/lifecycles.ts:33-39 | with no notice and no labels there are eight fields, the labels are the defaults and no `applicationNotice` key is written |
| FinancialServicesLifecycle.WriteMdxFile | cms/src/api/financial-services-page/content-types/financial-services-page/lifecycles.ts:48-66 | writes the page at the one fixed path, nothing else, and commits it with the update message |
| FinancialServicesLifecycle.DeleteMdxFile | cms/src/api/financial-services-page/content-types/financial-services-page/lifecycles.ts:68-81 | removes the page's file, nothing else; git runs only when a file was removed |
| FinancialServicesLifecycle.AfterCreate | cms/src/api/financial-services-page/content-types/financial-services-page/lifecycles.ts:84-89 | a published page is written and committed; anything else changes nothing |
| FinancialServicesLifecycle.AfterUpdate | cms/src/api/financial-services-page/content-types/financial-services-page/lifecycles.ts:90-99 | a published page is written and committed, an unpublished one removed (committed only when it existed), a missing result changes nothing |
| FinancialServicesLifecycle.AfterDelete | cms/src/api/financial-services-page/content-types/financial-services-page/lifecycles.ts:100-102 | the page's file is removed whatever the deleted record was |
| FinancialServicesLifecycle.DeleteTwice | cms/src/api/financial-services-page/content-types/financial-services-page/lifecycles.ts:76-80 | deleting twice commits once: the second removal finds no file and runs no git |
| BlogPostLifecycle.FormatDate | cms/src/api/blog-post/content-types/blog-post/lifecycles.ts:13-16 | the date part holds no `T`, is a prefix of the date, and is the whole date when it has no `T` |
| BlogPostLifecycle.SplitFirst | cms/src/api/blog-post/content-types/blog-post/lifecycles.ts:15 | the first piece of splitting the date at `T` is the text before the first `T` |
| BlogPostLifecycle.FormatDateIdempotent | cms/src/api/blog-post/content-types/blog-post/lifecycles.ts:13-16 | formatting a formatted date changes nothing |
| BlogPostLifecycle.LangOf | cms/src/api/blog-post/content-types/blog-post/lifecycles.ts:20 | the language is never empty (`en` when unset) |
| BlogPostLifecycle.GenerateFilename | cms/src/api/blog-post/content-types/blog-post/lifecycles.ts:18-22 | the name starts with the date, `-`, the slug and `.`, and ends with `.<lang>.mdx` |
| BlogPostLifecycle.LanguagesSeparateFiles | cms/src/api/blog-post/content-types/blog-post/lifecycles.ts:18-22 | two translations with the same date and slug but different languages get different files |
| BlogPostLifecycle.ImageUrl | cms/src/api/blog-post/content-types/blog-post/lifecycles.ts:28-37 | an image URL exists iff there is media with a non-empty URL; a URL starting with `http` is kept, any other gets the origin in front |
| BlogPostLifecycle.ImageUrlAbsolute | cms/src/api/blog-post/content-types/blog-post/lifecycles.ts:33-36 | with an origin starting with `http`, every resolved URL starts with `http` |
| BlogPostLifecycle.ImageUrlStable | cms/src/api/blog-post/content-types/blog-post/lifecycles.ts:34-36 | a resolved URL resolves to itself again whatever the origin |
| BlogPostLifecycle.WithSlug | cms/src/api/blog-post/content-types/blog-post/lifecycles.ts:156 | exactly the visited posts that have a slug contribute to the translations |
| BlogPostLifecycle.TranslationsLastWins | cms/src/api/blog-post/content-types/blog-post/lifecycles.ts:152-172 | each language is listed once, maps to the slug of the last visited post of that language, and a language no visited post has is not listed |
| BlogPostLifecycle.OwnLanguageListed | cms/src/api/blog-post/content-types/blog-post/lifecycles.ts:161 | a post with a slug lists itself under its own language unless a later visited post of that language has a slug |
| BlogPostLifecycle.TranslationItems | cms/src/api/blog-post/content-types/blog-post/lifecycles.ts:111-117 | one indented line per language, in map order, each slug written in quotes |
| BlogPostLifecycle.TranslationBlockRendersAsQuoted | cms/src/api/blog-post/content-types/blog-post/lifecycles.ts:115 | a slug without `"` is written exactly as a quoted value would be, so the block reads back as quoted slugs |
| BlogPostLifecycle.GenerateMdxReadsBack | cms/src/api/blog-post/content-types/blog-post/lifecycles.ts:93-126 | the file reads back as its fields, the `translations:` block when the map is not empty, and the converted content between an empty line and a final line break |
| BlogPostLifecycle.FilePath | cms/src/api/blog-post/content-types/blog-post/lifecycles.ts:175-176 | the path of a post is never empty, so the empty path can only mean a post not found |
| BlogPostLifecycle.CascadeStep | cms/src/api/blog-post/content-types/blog-post/lifecycles.ts:183-185 | one more translation written without cascading extends the cascade by one step |
| BlogPostLifecycle.WrittenPath | cms/src/api/blog-post/content-types/blog-post/lifecycles.ts:140-143 | the returned path is empty iff the post was not found |
| BlogPostLifecycle.WriteMdxFile | cms/src/api/blog-post/content-types/blog-post/lifecycles.ts:128-189 | writes the found post's file, then each linked translation's file without cascading, in order; returns the post's path or `""` when not found; git is not run |
| BlogPostLifecycle.CascadeTouchesOnlyFound | cms/src/api/blog-post/content-types/blog-post/lifecycles.ts:182-186 | the cascade changes only the files of the translations it finds |
| BlogPostLifecycle.CascadeWritesSibling | cms/src/api/blog-post/content-types/blog-post/lifecycles.ts:182-186 | after the cascade each found translation's file holds its own document, unless a later translation shares its path |
| BlogPostLifecycle.WriteKeepsOwnFile | cms/src/api/blog-post/content-types/blog-post/lifecycles.ts:174-186 | publishing writes the post's own document, unless a cascaded translation has the same path; a post not found changes nothing |
| BlogPostLifecycle.DeleteMdxFile | cms/src/api/blog-post/content-types/blog-post/lifecycles.ts:191-202 | removes the file named after the given record, nothing else, and returns its path whether or not it existed |
| BlogPostLifecycle.AfterCreate | cms/src/api/blog-post/content-types/blog-post/lifecycles.ts:205-213 | a published post is written with the cascade and committed as `blog: add` only when it was found; anything else changes nothing |
| BlogPostLifecycle.AfterUpdate | cms/src/api/blog-post/content-types/blog-post/lifecycles.ts:215-228 | a published post is written and committed when found; an unpublished one is removed and always committed as `blog: unpublish` |
| BlogPostLifecycle.AfterDelete | cms/src/api/blog-post/content-types/blog-post/lifecycles.ts:230-236 | the post's file is removed and `blog: delete` is committed even when there was no file |
| ExportTranslations.GetArgValue | cms/scripts/export-translations.ts:29-35 | no value when the name is absent; otherwise the argument right after its first occurrence, when there is one |
| ExportTranslations.GetArgValueAfter | cms/scripts/export-translations.ts:29-35 | an option given before any other mention of its name yields the argument that follows it |
| ExportTranslations.DigitPrefix | cms/scripts/export-translations.ts:21 | the leading digits: a prefix of the text made of digits and followed by no further digit |
| ExportTranslations.ParseLimit | cms/scripts/export-translations.ts:21 | a missing or empty `--limit` gives 0, and so does a value whose first non-blank character is `-`, which the script's `limit > 0` test treats as no limit |
| ExportTranslations.ParseLimitOfNumber | cms/scripts/export-translations.ts:21 | a limit written in decimal reads back as itself |
| ExportTranslations.ParseLimitUnsigned | cms/scripts/export-translations.ts:21 | after leading white space, an unsigned value is read as `parseInt` without a radix reads it: the hexadecimal digits after a `0x` or `0X`, otherwise the leading decimal digits |
| ExportTranslations.ParseLimitOfHex | cms/scripts/export-translations.ts:21 | `0x` or `0X` followed by hexadecimal digits reads as their hexadecimal value |
| ExportTranslations.ParseLimitSixteen | cms/scripts/export-translations.ts:21 | `--limit 0x10` limits the export to 16 posts |
| ExportTranslations.ParseLimitPlus | cms/scripts/export-translations.ts:21 | a leading `+` reads the same as no sign |
| ExportTranslations.ParseLimitMinus | cms/scripts/export-translations.ts:21 | any value starting with `-` gives no limit |
| ExportTranslations.LimitPosts | cms/scripts/export-translations.ts:241-244 | a limit of 0 keeps every post; a positive limit keeps the first `min(limit, count)` posts, in order |
| ExportTranslations.FormatDate | cms/scripts/export-translations.ts:56-61 | an empty date stays empty, an invalid one is kept as it is, a valid one becomes a `T`-free prefix of its ISO form |
| ExportTranslations.FormatDateIso | cms/scripts/export-translations.ts:56-61 | a valid date formats as the calendar day of its ISO form |
| ExportTranslations.FrontmatterLines | cms/scripts/export-translations.ts:102-130 | one line each for title, description, date and slug, one for each set image URL, two (`lang`, `uniqueSlug`) exactly when there is a locale, one for `isTranslated` when given, and `translations:` plus one line per entry exactly when there is a table; the quoted title and description come first, and the `lang`, `uniqueSlug` and entry lines are present as rendered |
| ExportTranslations.GenerateMdx | cms/scripts/export-translations.ts:132-136 | the document opens with the frontmatter marker and ends with a line break; what it reads back as is stated by ExportedDocumentReadsBack |
| ExportTranslations.ExportedDocumentReadsBack | cms/scripts/export-translations.ts:102-136 | when no value holds a line break or edge white space, the importer's frontmatter parser reads the exported document back as exactly the exported fields and the content between an empty line and a final line break |
| ExportTranslations.FrontmatterReads | cms/scripts/export-translations.ts:102-130 | under the same conditions the frontmatter lines are safe for the importer's block match and fold into exactly the exported fields |
| ExportTranslations.ExportedFieldsOfPost | cms/scripts/export-translations.ts:102-130 | the fields read back hold the title, description, formatted date and slug; `lang` and `uniqueSlug` (with `<locale>-` in front for a non-English locale) exactly when there is a locale; `isTranslated` exactly when the flag is given; `translations` exactly when there is a table, and every table entry with its value |
| ExportTranslations.TableFieldsKeyed | cms/scripts/export-translations.ts:122-129 | every entry of a table without repeated keys reads back as its key and its value, a flag as bare `true`/`false` and a slug without its quotes |
| ExportTranslations.GenerateFilename | cms/scripts/export-translations.ts:138-143 | every exported file name ends with `.mdx`; what the importer reads out of it is stated by FilenameReadsBack |
| ExportTranslations.FilenameReadsBack | cms/scripts/export-translations.ts:138-143 | with a `YYYY-MM-DD` date, a locale of the form `xx` or `xx-YY` (or none) and a one-line slug not ending in `.mdx`, the importer reads the name back as that date, that slug and that locale; the reference file, without a locale, reads back with no language when its slug has no language suffix of its own |
| ExportTranslations.LangPartDistinct | cms/scripts/export-translations.ts:141-143 | two different locale parts (no locale counting as one) give different name endings |
| ExportTranslations.FilenamesDistinct | cms/scripts/export-translations.ts:138-143 | two different locales of one post never share a file name |
| ExportTranslations.NonEnglish | cms/scripts/export-translations.ts:163-170 | the codes other than `en`, in order, and no others |
| ExportTranslations.FetchedLocales | cms/scripts/export-translations.ts:145-180 | never empty and never `en`; the CMS's non-English codes when there are any, the default set otherwise |
| ExportTranslations.ExistingLocales | cms/scripts/export-translations.ts:267-269 | exactly the non-empty languages of the linked translations |
| ExportTranslations.LocalesToExport | cms/scripts/export-translations.ts:271-276 | every locale under `--force`; otherwise exactly the locales without a translation |
| ExportTranslations.LocalesDistinct | cms/scripts/export-translations.ts:271-276 | without repeated locales, the locales to export repeat none either |
| ExportTranslations.SkippedExactly | cms/scripts/export-translations.ts:278-284 | a post is passed over exactly when it has no locale to export, which `--force` rules out when there are locales |
| ExportTranslations.TranslationsContent | cms/scripts/export-translations.ts:262-289 | the table has no repeated key, maps `en` to the slug and every locale to `<locale>-<slug>` |
| ExportTranslations.FindTranslation | cms/scripts/export-translations.ts:302-304 | the first linked translation in the locale, or none exactly when no linked translation has it |
| ExportTranslations.LocaleVersion | cms/scripts/export-translations.ts:309-337 | the existing translation, with `isTranslated: true` and the parent's date as its fallback, exactly under `--force` when one exists; the English post with `false` otherwise |
| ExportTranslations.PostJobsShape | cms/scripts/export-translations.ts:291-341 | the reference file comes first without `isTranslated`; then one file per locale to export, in order, all with the same table |
| ExportTranslations.LocaleNamesDistinct | cms/scripts/export-translations.ts:306-307 | two positions among the locales to export name two different files |
| ExportTranslations.LocaleNameNotReference | cms/scripts/export-translations.ts:292-307 | a locale's file is never the English reference file |
| ExportTranslations.PostJobNamesDistinct | cms/scripts/export-translations.ts:292-341 | with distinct non-empty locales, no file of a post overwrites another |
| ExportTranslations.WriteAllCount | cms/scripts/export-translations.ts:296-341 | all files are written iff no name fails; otherwise the count is the position of the first failing name |
| ExportTranslations.WriteAll | cms/scripts/export-translations.ts:296-353 | the count of written files never exceeds the files asked for, and it is all of them when no write failed |
| ExportTranslations.WriteAllStuck | cms/scripts/export-translations.ts:347-353 | once a write has failed nothing more is written |
| ExportTranslations.WriteAllStores | cms/scripts/export-translations.ts:296-339 | every written file holds its document unless a later file of the same name replaced it |
| ExportTranslations.WriteAllElsewhere | cms/scripts/export-translations.ts:296-339 | a name none of the files has keeps its old text or stays absent |
| ExportTranslations.BuildTranslations | cms/scripts/export-translations.ts:262-289 | the loop builds the table the specification describes |
| ExportTranslations.WritePostFiles | cms/scripts/export-translations.ts:291-341 | the loop writes the reference and then each locale's file, stopping at the first failure, as the specification says |
| ExportTranslations.ExportPost | cms/scripts/export-translations.ts:260-353 | a post is passed over iff it has no locale to export, and then nothing changes; otherwise its files are written until one fails |
| ExportTranslations.ExportTranslations | cms/scripts/export-translations.ts:239-358 | the loop over the (limited) posts yields the directory and the totals of the specification |
| ExportTranslations.ExportRunCounts | cms/scripts/export-translations.ts:255-358 | each post is counted at most once as passed over or failed, and writes at most one file more than there are locales |
| ImportTranslations.StripDoubleQuotes | cms/scripts/import-translations.ts:77-79 | a value that starts and ends with `"` loses one quote at each end (a lone `"` becomes empty); any other value is kept |
| ImportTranslations.ImportLineIsKeyValue | cms/scripts/import-translations.ts:73-81 | splitting a line at every colon and joining the rest back is cutting it at its first colon, so the importer reads the same key and raw value as the sync script |
| ImportTranslations.ImportQuoted | cms/scripts/import-translations.ts:76-80 | a line whose raw value is a quoted text reads back as that text |
| ImportTranslations.ImportQuotedLine | cms/scripts/import-translations.ts:73-81 | a `key: "value"` line, as the exporter writes it, reads back as the key and the text between the quotes |
| ImportTranslations.ImportPlainLine | cms/scripts/import-translations.ts:73-81 | a `key: value` line with an unquoted value free of edge white space reads back as that value |
| ImportTranslations.ImportNestedQuotedLine | cms/scripts/import-translations.ts:73-81 | an indented translations entry reads back as its key and slug |
| ImportTranslations.ParseFrontmatter | cms/scripts/import-translations.ts:62-88 | no result iff the frontmatter block does not match; otherwise the loop folds the block's lines in order (a later key wins) and keeps the body as it is |
| ImportTranslations.ExtractLang | cms/scripts/import-translations.ts:90-93 | a code exists iff the name ends with `.xx.mdx` or `.xx-YY.mdx`, and then it is that code |
| ImportTranslations.LangSuffixExclusive | cms/scripts/import-translations.ts:91 | the two code forms never both match the same name |
| ImportTranslations.LangSuffixOf | cms/scripts/import-translations.ts:90-105 | a name made of a stem, `.`, a language code and `.mdx` has that code, and cutting the suffixes gives the stem back |
| ImportTranslations.SlugNameReadsBack | cms/scripts/import-translations.ts:90-117 | a one-line slug followed by `.<lang>.mdx` or `.mdx` reads back as that slug and that language, or none |
| ImportTranslations.DatedNameReadsBack | cms/scripts/import-translations.ts:90-117 | the same name behind a `YYYY-MM-DD-` prefix also yields that date, and the prefix does not change the language read |
| ImportTranslations.StripSuffixes | cms/scripts/import-translations.ts:104-105 | the slug is a prefix of the text it is cut from |
| ImportTranslations.FirstLine | cms/scripts/import-translations.ts:108 | `.*` stops at the first line terminator: a terminator-free prefix followed by a terminator or the end |
| ImportTranslations.ExtractSlugAndDate | cms/scripts/import-translations.ts:95-117 | a date exists iff the name starts with `YYYY-MM-DD-`, and then it is those ten characters; the slug is the rest with the language and `.mdx` suffixes removed |
| ImportTranslations.UniqueSlug | cms/scripts/import-translations.ts:223 | English keeps the slug; any other language gets `<lang>-` in front |
| ImportTranslations.BuildPost | cms/scripts/import-translations.ts:232-257 | the record has the unique slug and the language; the title falls back to the slug; `featuredImage` is set iff the image value is all digits; `ogImageUrl` iff it is set |
| ImportTranslations.FileOutcome | cms/scripts/import-translations.ts:203-259 | skipped for an invalid frontmatter iff the parse failed, for a missing language iff there is no code; a created post carries the file's language and unique slug and was not in the CMS unless the check failed |
| ImportTranslations.MdxEntries | cms/scripts/import-translations.ts:183-185 | only `.mdx` entries, in listing order |
| ImportTranslations.ImportTranslations | cms/scripts/import-translations.ts:175-292 | a missing directory changes nothing; otherwise the loop over the `.mdx` files yields the CMS and the counts the specification gives, success being total minus skipped minus failed |
| ImportTranslations.ImportFile | cms/scripts/import-translations.ts:197-268 | one file is parsed, decided against the CMS as it is and counted as the specification step says |
| ImportTranslations.ImportRunCounts | cms/scripts/import-translations.ts:194-272 | each file is counted once: posts created plus skipped plus failed is the total, and the CMS only grows |
| ImportTranslations.ImportNoDuplicate | cms/scripts/import-translations.ts:224-231 | a slug and language already in the CMS is never created again, unless the existence check for it failed |
| SyncMdx.StripQuotes | cms/scripts/sync-mdx.cjs:69 | one leading and one trailing quote (`"` or `'`) are removed, each on its own: they need not match and a lone quote leaves nothing |
| SyncMdx.Convert | cms/scripts/sync-mdx.cjs:72 | a value becomes a number iff it is all digits; any other value is kept as text |
| SyncMdx.ConvertNumber | cms/scripts/sync-mdx.cjs:72 | a number written in decimal converts back to itself |
| SyncMdx.LineField | cms/scripts/sync-mdx.cjs:63-75 | a line contributes a field iff it has a colon after its first character |
| SyncMdx.FieldsSnoc | cms/scripts/sync-mdx.cjs:62-76 | each line adds its trimmed key with the trimmed, unquoted, converted value, a later key overwriting an earlier one; a line without a colon after its first character adds nothing |
| SyncMdx.ParseMdx | cms/scripts/sync-mdx.cjs:53-79 | without a frontmatter block the result is empty; otherwise the loop reads the block's lines in order and the body is trimmed |
| SyncMdx.ParseSpecOfDocument | cms/scripts/sync-mdx.cjs:53-79 | a document made of `---`, lines in which no line break is followed by `-`, `---` and a body parses as the fields of those lines and the trimmed body |
| SyncMdx.NameSlug | cms/scripts/sync-mdx.cjs:118 | dropping `.mdx` and then a leading date never gives a longer name than the stem |
| SyncMdx.NameSlugOf | cms/scripts/sync-mdx.cjs:118 | `YYYY-MM-DD-rest.mdx` gives `rest`; a name without a date prefix gives its stem |
| SyncMdx.FileSlug | cms/scripts/sync-mdx.cjs:115-119 | a truthy frontmatter slug is the slug; without one the slug is the one derived from the name |
| SyncMdx.ScanMdxFiles | cms/scripts/sync-mdx.cjs:97-131 | a missing directory gives no files; otherwise the loop yields the scan specification: for each `.mdx` entry, in order, its name, the frontmatter and content parsed from its text, and its slug |
| SyncMdx.ScanSpecMembers | cms/scripts/sync-mdx.cjs:97-131 | a record is scanned exactly when some `.mdx` entry of the listing, with its text, gives that record |
| SyncMdx.EntryData | cms/scripts/sync-mdx.cjs:224-243 | the record carries the file's slug, the converted content and the time stamp; an event record, and only that, has an order, which falls back to 0 |
| SyncMdx.ClaimedTextSlugs | cms/scripts/sync-mdx.cjs:273 | on text slugs, the corrected test for a claimed entry agrees with the script's own |
| SyncMdx.NumericSlugDeleted | cms/scripts/sync-mdx.cjs:221-273 | a frontmatter slug `42` converts to a number whose text is `42`; the corrected test claims the entry `42`, the script's test does not |
| SyncMdx.NumericSlugDeletedInRun | cms/scripts/sync-mdx.cjs:197-287 | in a real run, a file with a numeric slug updates the entry of that text (unless its request failed or a later file has that slug), and the script's delete phase then removes that entry when it is on the first page and its deletion succeeds |
| SyncMdx.Orphans | cms/scripts/sync-mdx.cjs:272-273 | under either claim test, the orphans are drawn from the fetched page, never more of them than the page holds |
| SyncMdx.OrphansMembers | cms/scripts/sync-mdx.cjs:272-273 | under a claim test `t`, an entry is an orphan exactly when it is on the fetched page and no scanned file claims it; the script's test is AsWritten (`processedSlugs.has(entry.slug)`), the corrected one Intended |
| SyncMdx.FirstPage | cms/scripts/sync-mdx.cjs:162-165 | at most 100 entries, the first ones of the listing, all of them when there are no more |
| SyncMdx.UpsertAll | cms/scripts/sync-mdx.cjs:219-269 | the loop yields the CMS and the counts of the upsert specification and records every file's slug as processed |
| SyncMdx.DeleteOrphans | cms/scripts/sync-mdx.cjs:271-287 | the loop deletes the orphans the script's own claim test (AsWritten) gives, as the delete specification says |
| SyncMdx.SyncContentType | cms/scripts/sync-mdx.cjs:197-290 | a failed listing fails the content type and changes nothing; otherwise upserts, then deletions of the first page's orphans under the script's own claim test (AsWritten) |
| SyncMdx.UpsertsCount | cms/scripts/sync-mdx.cjs:220-269 | each file adds exactly one to created, updated or errors |
| SyncMdx.DeletesCount | cms/scripts/sync-mdx.cjs:272-287 | each orphan adds exactly one to deleted or errors |
| SyncMdx.SyncCounts | cms/scripts/sync-mdx.cjs:209-289 | under either claim test, a run's counters add up to one per file plus one per orphan |
| SyncMdx.DryRunUnchanged | cms/scripts/sync-mdx.cjs:249-277 | a dry run leaves the CMS as it was |
| SyncMdx.UpsertsStore | cms/scripts/sync-mdx.cjs:246-264 | after a real run, each file whose requests succeeded is stored under its slug with its record, unless a later file has the same slug |
| SyncMdx.DeletesEffect | cms/scripts/sync-mdx.cjs:272-287 | whatever the claim test that chose them, the delete phase removes exactly the orphans whose deletion succeeded and leaves every other entry as it was |
| SyncMdx.UpsertsKeep | cms/scripts/sync-mdx.cjs:220-269 | the upsert phase never removes an entry |
| SyncMdx.ClaimedSurvives | cms/scripts/sync-mdx.cjs:221-273 | a file's slug protects the matching entry from deletion, even when the file's own upsert failed: always under the corrected test, and under the script's test when the slug is text |
| SyncMdx.OrphanRemoved | cms/scripts/sync-mdx.cjs:162-287 | under a claim test `t`, an entry `t` does not claim is gone after a real run when it is on the first page and its deletion succeeds; entries beyond the first page are left as the upserts left them |
| SyncMdx.ExitCode | cms/scripts/sync-mdx.cjs:297-345 | the status is 0 or 1, and 1 exactly when no token is set or the summed error count is positive |
| SyncMdx.SummedErrorsPositive | cms/scripts/sync-mdx.cjs:319-330 | the summed error count is positive exactly when some content type failed as a whole or reported an error |
| StrapiWebhook.Or | scripts/strapi-webhook.mjs:78-95 | JavaScript's logical or: a truthy left value is kept, any other gives the right value |
| StrapiWebhook.EscapeYamlPerChar | scripts/strapi-webhook.mjs:28-32 | the three replacements in a row (backslashes, then quotes, then line feeds) escape each character on its own |
| StrapiWebhook.EscapeYamlRoundTrip | scripts/strapi-webhook.mjs:28-32 | an escaped value holds no line feed, and reading the escapes back gives the value |
| StrapiWebhook.AppendLines | scripts/strapi-webhook.mjs:36-53 | `append` pushes nothing exactly for `undefined`, `null`, `''` and `[]` |
| StrapiWebhook.ItemLines | scripts/strapi-webhook.mjs:41 | one item line per array element |
| StrapiWebhook.FormatDate | scripts/strapi-webhook.mjs:22-26 | the date written is at most ten characters: the first ten of the ISO form, or of the current time for an invalid date |
| StrapiWebhook.AppendSingleLine | scripts/strapi-webhook.mjs:36-53 | every line `append` pushes is a single line |
| StrapiWebhook.QuotedLineReadsBack | scripts/strapi-webhook.mjs:52 | a quoted line holds the value's text exactly: undoing the escapes between the quotes gives `String(value)` |
| StrapiWebhook.ArrayLinesReadBack | scripts/strapi-webhook.mjs:38-42 | an array is its key alone on a line, then one `  - ` line per element whose escapes read back as the element |
| StrapiWebhook.SerializeReadsBack | scripts/strapi-webhook.mjs:34-66 | the block splits at line feeds into the opening `---`, the lines in key order ending with `featured`, the closing `---` and nothing after the final line feed |
| StrapiWebhook.NormalizeUrl | scripts/strapi-webhook.mjs:71-76 | no URL gives the placeholder; a trimmed URL with an `http`/`https` scheme (any case) is kept; any other gets `https://` in front |
| StrapiWebhook.NormalizeUrlIdempotent | scripts/strapi-webhook.mjs:71-76 | a normalised URL has a scheme and normalises to itself |
| StrapiWebhook.NormalizeFails | scripts/strapi-webhook.mjs:79 | normalising throws exactly for a payload with no slug whose title is set but is not a string |
| StrapiWebhook.NormalizedSlug | scripts/strapi-webhook.mjs:79 | the payload's own slug is kept; otherwise the slug is a proper slug of the title, and `press-item` without a title |
| StrapiWebhook.NormalizedFallbacks | scripts/strapi-webhook.mjs:78-87 | the title, summary, source and date are always present, with their documented fallbacks |
| StrapiWebhook.NormalizedUrl | scripts/strapi-webhook.mjs:85 | the URL always has a scheme and is the placeholder when there is neither `url` nor `link` |
| StrapiWebhook.Provided | scripts/strapi-webhook.mjs:106-108 | a leading `sha256=` is dropped; any other header is the signature itself |
| StrapiWebhook.SignatureAccepted | scripts/strapi-webhook.mjs:99-115 | a request is accepted exactly when the secret or the header is missing, or the signature (with or without `sha256=`) is the expected HMAC |
| StrapiWebhook.MissingHeaderAccepted | scripts/strapi-webhook.mjs:99-100 | with a secret configured, a request without a signature header, or with an empty one, still passes the check |
| StrapiWebhook.EnforcedNeedsSignature | scripts/strapi-webhook.mjs:99-115 | with the secret enforced, a request is accepted exactly when there is no secret or its signature, with or without `sha256=`, is the expected HMAC, so a configured secret always needs a header |
| StrapiWebhook.HandleOrder | scripts/strapi-webhook.mjs:117-167 | the checks come in order (405, 404, 401, 400, 500) and each status names the first that fails; only a 201 writes, and it writes the `.mdx` file it names at the press directory, `/` and that name, with no normalisation of `..` segments |
| StrapiWebhook.DroppedIff | scripts/strapi-webhook.mjs:151-154 | once the body is accepted and parsed, the handler throws inside its async `end` callback exactly when the payload has no slug and a title that is not a string: no answer is sent, and the rejection goes unhandled |
| StrapiWebhook.FileNameDefined | scripts/strapi-webhook.mjs:154 | a normalised entry always has a file name |
| StrapiWebhook.EmptySlugFileName | scripts/strapi-webhook.mjs:79-154 | any payload with no slug whose title is a non-empty text without letters or digits is saved as `.mdx` |
| StrapiWebhook.SavedFileReadsBack | scripts/strapi-webhook.mjs:151-158 | a saved file is the frontmatter block, an empty line and the body, and its block splits back into its lines |
| TagUrl.TagUrlOf | src/utils/tag-url.js:6-9 | a tag link is the blog's tag path followed by exactly the slug `getTagSlug` gives for the same tag |
| TagUrl.TagSlugShape | src/utils/tag-url.js:16-18 | a tag slug has no white space and no upper-case letter |
| TagUrl.TagSlugIdempotent | src/utils/tag-url.js:6-18 | slugging a slug leaves it as it is, so a slug and the tag it came from have the same link |
| TagUrl.TagSlugOfTwoWords | src/utils/tag-url.js:16-18 | two words separated by any run of white space become the two lower-cased words joined by one `-` |
| SpecPage.SquashNoDoubleDash | src/components/Spec/Spec.jsx:22 | after collapsing runs of dashes there are never two dashes in a row |
| SpecPage.SquashOfSquashed | src/components/Spec/Spec.jsx:22 | text without two dashes in a row is left as it is by the dash collapse |
| SpecPage.GenerateSlugCollapsed | src/components/Spec/Spec.jsx:16-24 | a heading anchor has only `a`–`z`, `0`–`9` and single dashes |
| SpecPage.GenerateSlugOfCollapsed | src/components/Spec/Spec.jsx:16-24 | text made only of `a`–`z`, `0`–`9` and single dashes is its own anchor |
| SpecPage.GenerateSlugIdempotent | src/components/Spec/Spec.jsx:16-24 | making an anchor of an anchor changes nothing |
| SpecPage.GenerateSlugKeepsAlnums | src/components/Spec/Spec.jsx:16-24 | only separators change: the anchor keeps exactly the letters and digits of the trimmed, lower-cased heading, in order |
| SpecPage.IndexOfFrom | src/components/Spec/Spec.jsx:11 | `indexOf(sub, from)` is -1 exactly when `sub` does not occur at or after `from`, and otherwise the first such occurrence |
| SpecPage.SpecBody | src/components/Spec/Spec.jsx:11-12 | the rendered body is a suffix of the fetched text |
| SpecPage.SpecBodyAfterDelimiter | src/components/Spec/Spec.jsx:11-12 | the body is what follows the first `---` after the first character; with no such `---` the slice starts at index 2 (-1 + 3) |
| SpecPage.SpecBodyOfFrontmatter | src/components/Spec/Spec.jsx:9-14 | a page opening with a frontmatter block renders exactly what follows its closing `---` |
| FetchStrapi.DropTrailingSlash | src/utils/fetchStrapi.ts:8 | at most one trailing slash is removed from the base, and nothing else changes |
| FetchStrapi.DropLeadingSlash | src/utils/fetchStrapi.ts:8 | at most one leading slash is removed from the endpoint, and nothing else changes |
| FetchStrapi.RequestUrl | src/utils/fetchStrapi.ts:6-8 | an endpoint starting with `http` is used as it is; any other is joined to the base by one `/` |
| FetchStrapi.OneSlashAtSeam | src/utils/fetchStrapi.ts:5-8 | when neither side has a doubled slash, the URL is base part, one `/`, endpoint part, and neither part has a slash at the seam |
| FetchStrapi.SeamSlashesIrrelevant | src/utils/fetchStrapi.ts:5-8 | a slash at the end of the base or the start of the endpoint, or both, gives the same URL as neither |
| FetchStrapi.Headers | src/utils/fetchStrapi.ts:9-14 | the request sends the bearer token (rendered `undefined` when unset) and the JSON content type |
| FetchStrapi.Fetch | src/utils/fetchStrapi.ts:1-23 | the call succeeds exactly when the response is OK, returns its body then, and otherwise fails with `Strapi API error: <status>` |
| AdminPreview.PreviewPathname | cms/config/admin.ts:2-12 | only blog posts have a preview path; it is `/blog` when the document has no (or a zero) id, and otherwise the preview query with the document id |
| AdminPreview.PreviewUrlShape | cms/config/admin.ts:37-56 | a preview URL exists exactly for blog posts; it starts with the client URL, and the document id reads back after the query prefix |
| I18nUi.Languages | src/i18n/ui.ts:12-17 | the site has exactly the languages `en` and `es`, and the default language is one of them |
| I18nUi.Routes | src/i18n/ui.ts:19-26 | each language has a route table, and `interledger-universe` is `el-universo-interledger` in Spanish |
| I18nUi.PortalLinks | src/i18n/ui.ts:28-125 | the developer portal, the tech blog and the community forum have the English and Spanish links the site lists |
| I18nUi.Lookup | src/i18n/ui.ts:127-224 | looking a key up in a string table finds a value exactly when the key is listed, and the value is one listed under that key |
| I18nUi.UiKeysAgree | src/i18n/ui.ts:127-224 | the English and Spanish interface strings have the same keys in the same order |
| I18nPaths.LangFromPath | src/i18n/utils.ts:3-7 | the language of a pathname is always a site language; it is not the default exactly when the third `/`-segment names a site language other than the default |
| I18nPaths.TranslateNeverFallsBack | src/i18n/utils.ts:9-16 | `t(key)` is defined exactly on the English keys, and on them it is always the current language's own string, never the English fallback |
| I18nPaths.InsertAt | src/i18n/utils.ts:26 | `splice(k, 0, x)` adds one segment: `x` at position `k` with the others kept in order around it, or at the end when `k` is past it |
| I18nPaths.TranslatePathCases | src/i18n/utils.ts:18-32 | the default language keeps a path; another language prefixes a path outside the developer portal, and inside it becomes the third segment with the others kept in order |
| I18nPaths.DropEs | src/i18n/utils.ts:36 | the kept segments are never `es`, all come from the input, and there are no more of them |
| I18nPaths.EnglishPathSegments | src/i18n/utils.ts:34-39 | the English path splits back into the non-`es` segments of the pathname, in order |
| I18nPaths.EnglishPathIdempotent | src/i18n/utils.ts:34-39 | taking the English path of an English path changes nothing |
| I18nPaths.DropInserted | src/i18n/utils.ts:25-36 | removing the `es` segments undoes inserting `es` at position 2 of segments that had none |
| I18nPaths.EnglishOfTranslated | src/i18n/utils.ts:18-39 | translating a rooted path without `es` segments into Spanish and taking its English path gives the path back, both inside and outside the portal |
| I18nPaths.LangOfTranslated | src/i18n/utils.ts:3-32 | the language read back from a portal path translated into Spanish is Spanish |
| I18nPaths.LangOfEnglish | src/i18n/utils.ts:3-39 | an English path always reads as the default language |
| I18nPaths.TranslateChanges | src/i18n/utils.ts:18-32 | translating into Spanish always changes a path |
| I18nPaths.NavigationLinksTranslate | src/i18n/ui.ts:33-100 | the Spanish links of the portal and the tech blog are their translated English links, while the forum link is the same in both languages, which translating would not give |
| ImageAudit.LastIndexOf | scripts/audit-images.js:71 | the result is -1 or an index holding the character, and no later index holds it |
| ImageAudit.ExtName | scripts/audit-images.js:71 | the extension is empty or a dot-led suffix of the name, shorter than the name, with no other dot |
| ImageAudit.ExtNameOf | scripts/audit-images.js:71 | a stem, a dot and a dot-free suffix have exactly that dot and suffix as extension |
| ImageAudit.BaseNameStripping | scripts/audit-images.js:72 | `path.basename(file, ext)` is the name itself, or the name with `ext` cut off its end |
| ImageAudit.BaseNameAsWritten | scripts/audit-images.js:72 | the base name the script computes is the name, or the name with its lower-cased extension cut off |
| ImageAudit.BaseName | scripts/audit-images.js:72 | the intended base name followed by the name's own extension is the name |
| ImageAudit.UpperCaseExtensionKept | scripts/audit-images.js:71-72 | a name whose extension has an upper-case letter keeps that extension in the script's base name, while the intended base name drops it |
| ImageAudit.LowerCaseExtensionAgrees | scripts/audit-images.js:71-72 | with a lower-case extension both base names agree |
| ImageAudit.VariantMatch | scripts/audit-images.js:77 | a match gives one of the four sizes and a name such that size, `_` and name make the base name; there is no match exactly when no size prefix fits |
| ImageAudit.VariantMatchOf | scripts/audit-images.js:77 | a size prefix, `_` and a non-empty one-line name read back as that size and name |
| ImageAudit.FileEntry | scripts/audit-images.js:79-93 | one regular file, given its lower-cased extension and its key, is filed as the catalogue function says: a WebP or AVIF version under its key, a JPEG or PNG as a variant or an original |
| ImageAudit.Key | scripts/audit-images.js:71-72 | the corrected key followed by the name's extension is the name; the script's key is the name, or the name with its lower-cased extension cut off |
| ImageAudit.Categorize | scripts/audit-images.js:65-94 | the loop builds the catalogue of the whole listing, file after file, keyed as the script keys (AsWritten) |
| ImageAudit.TotalSizeIsFileBytes | scripts/audit-images.js:61-94 | under either keying, the total size is the sum of the sizes of the regular files, and the WebP and AVIF totals are part of it |
| ImageAudit.VersionsRecorded | scripts/audit-images.js:79-84 | a key has a WebP (AVIF) version exactly when some regular file with that extension is recorded under it (by key `k`: AsWritten is the script's `path.basename(file, ext.toLowerCase())`, Intended the corrected base name) |
| ImageAudit.OriginalsRecorded | scripts/audit-images.js:85-92 | a key has an original exactly when some regular JPEG or PNG file that is not a variant has that key (by key `k`: AsWritten is the script's `path.basename(file, ext.toLowerCase())`, Intended the corrected base name) |
| ImageAudit.OriginalsLastWins | scripts/audit-images.js:91 | the recorded original is the image of the last file with that key (by key `k`: AsWritten is the script's `path.basename(file, ext.toLowerCase())`, Intended the corrected base name) |
| ImageAudit.VariantsRecorded | scripts/audit-images.js:86-89 | a name has variants exactly when some JPEG or PNG file is a variant of it, and what is recorded is a non-empty map from known sizes (by key `k`: AsWritten is the script's `path.basename(file, ext.toLowerCase())`, Intended the corrected base name) |
| ImageAudit.LargeBeyondBytes | scripts/audit-images.js:131-132 | a file is over 500 KB exactly when it has more than 512000 bytes |
| ImageAudit.IssuesOf | scripts/audit-images.js:112-135 | each issue is listed exactly when its condition holds, and there is none exactly when the original is optimised |
| ImageAudit.CountIssues | scripts/audit-images.js:110-143 | the count is the number of originals with at least one issue |
| ImageAudit.Audit | scripts/audit-images.js:44-189 | the exit code is the script's (AsWritten keying): 1 or 0, and 0 exactly when the uploads folder exists and every original is optimised |
| ImageAudit.AuditExit | scripts/audit-images.js:136-188 | under either keying the exit code is 0 or 1 |
| ImageAudit.AuditExitZero | scripts/audit-images.js:136-188 | under either keying the exit code is 0 exactly when the uploads folder exists and every original of that catalogue is optimised |
| ImageAudit.KeyingsAgree | scripts/audit-images.js:71-72 | on a listing whose extensions are all lower-case, the script's catalogue is the corrected one |
| ImageAudit.OptimisedFromFiles | scripts/audit-images.js:65-143 | an original is left unflagged exactly when files give it a WebP version, an AVIF version and a variant, and its last file is at most 512000 bytes (by key `k`: AsWritten is the script's `path.basename(file, ext.toLowerCase())`, Intended the corrected base name) |
| ImageAudit.VersionExt | cms/src/middlewares/image-optimizer.ts:95 | the extensions the optimiser writes are lower-case, single-dotted and not image extensions the audit files as originals |
| ImageAudit.VersionBaseName | scripts/audit-images.js:71-72 | a stem followed by an optimiser's extension has that stem as base name, both ways |
| ImageAudit.OptimisedVersionFound | cms/src/middlewares/image-optimizer.ts:95 | with the corrected key, each version the optimiser writes for an original is recorded under that original's key |
| ImageAudit.OptimisedVersionMissedAsWritten | scripts/audit-images.js:72 | with the base name as written, an original with an upper-case extension is keyed with its extension, while its versions are keyed by the stem |
| ImageAudit.PhotoJpgMissed | scripts/audit-images.js:72 | `Photo.JPG` is keyed `Photo.JPG` by the script, while its WebP version `Photo.webp` is keyed `Photo` |
| ImageAudit.PhotoListingFailsAsWritten | scripts/audit-images.js:71-188 | for the listing `Photo.JPG`, `Photo.webp`, `Photo.avif`, `small_Photo.jpg`, the script keys the original `Photo.JPG`, finds no WebP version under that key, and exits 1 |
| ImageAudit.PhotoListingPassesIntended | scripts/audit-images.js:71-188 | with the corrected key the same listing has the one original `Photo`, which is optimised, and the audit exits 0 |
| FieldLabels.Relabelled | cms/src/index.ts:133-143 | the relabelled metadata has the wanted label in both `edit` and `list`, and every other setting of the field and of both sections is kept |
| FieldLabels.Step | cms/src/index.ts:123-146 | one turn of the inner loop never adds or removes a field |
| FieldLabels.RelabelAll | cms/src/index.ts:122-147 | the inner loop over the labels keeps the set of fields |
| FieldLabels.RelabelFields | cms/src/index.ts:119-147 | the loop returns the relabelled copy of the metadata and raises `needsUpdate` exactly when the pass specification says so |
| FieldLabels.RelabelAllOutside | cms/src/index.ts:122-147 | fields the label map does not name are left as they are |
| FieldLabels.RelabelAllAt | cms/src/index.ts:122-147 | with distinct field names, a named field ends relabelled exactly when its stored label was a default one (none, empty or the field name up to case) other than the wanted one, and is kept otherwise |
| FieldLabels.AnyRelabelIff | cms/src/index.ts:119-147 | with distinct field names, an update is needed exactly when some named field present in the metadata needs relabelling |
| FieldLabels.RelabelAllSettles | cms/src/index.ts:122-147 | a second pass over the relabelled metadata needs no update and changes nothing |
| FieldLabels.NoRelabelKeeps | cms/src/index.ts:119-147 | when no field needs relabelling the metadata is kept as it is |
| FieldLabels.Update | cms/src/index.ts:103-159 | a content type is updated exactly when its label map is not empty, the service exists, its calls do not throw, it has stored metadata and some field needs relabelling; the update is the relabelled metadata |
| FieldLabels.After | cms/src/index.ts:103-160 | the pass never adds or removes a content type's configuration |
| FieldLabels.ContentManager.ConfigureFieldLabels | cms/src/index.ts:39-161 | the pass stores, content type by content type in order, each update it makes and records one `updateConfiguration` call per update, and leaves the service and its failures as they were |
| FieldLabels.AfterOutside | cms/src/index.ts:103-160 | content types the pass does not name keep their configuration |
| FieldLabels.AfterAt | cms/src/index.ts:103-160 | with distinct content types, each one ends with its own update computed on its configuration as stored before the pass |
| FieldLabels.SettledAt | cms/src/index.ts:103-160 | after a pass, no content type it names needs an update |
| FieldLabels.SecondPassNoUpdate | cms/src/index.ts:103-160 | a second pass over what the first stored makes no `updateConfiguration` call and changes nothing |
| FieldLabels.BootstrapSettles | cms/src/index.ts:42-101 | with the site's own label map, restarting the CMS after a pass that stored its labels makes no further update |
| Text.JoinSplit | src/i18n/utils.ts:25-27 | joining the pieces of `split(c)` with `c` gives back the text that was split |
| Text.SplitJoin | src/i18n/utils.ts:25-27 | splitting on `c` a join, by `c`, of one or more pieces that do not contain `c` gives back those pieces |

## Left out

- File-system and path plumbing are not modelled. This covers `fs.*`, `path.resolve(__dirname, …)`, `path.join`, `mkdirSync` and `fs.statSync`. The working tree is the `files` map of `Workspace.Site`, keyed by repository-relative path. A directory listing is a sequence of names and texts, or `None` when the directory is missing.
- The git shell-out is not modelled. The `exec` call of `gitCommitAndPush` becomes the chained command and the steps it runs. The failing step is a field of the site. The call always completes.
- The HTML↔Markdown converters are parameters (`string -> string`). This covers `htmlToMarkdown` in every lifecycle hook and `markdownToHTML` in `sync-mdx`. They are order-dependent regular-expression rewrites.
- Host library calls are parameters:
  - `JSON.stringify` of the FAQ items;
  - `JSON.parse` of the webhook body;
  - `Date` parsing and `toISOString`, which depend on the time zone;
  - the current time;
  - the HMAC-SHA256 digest.
- `timingSafeEqual` is modelled as equality after the byte-length test. Its constant-time behaviour is not modelled.
- The CMS HTTP requests are not modelled. The CMS is a value, and fetched data are inputs. A request that throws is modelled as a set of keys (slugs, ids or locales) whose request fails. The response bodies are not modelled.
- The query side of the exporter is not modelled. It builds request filters from `--since`, `--ids`, `--slugs` and `--limit`, and the model takes the posts those requests return. The `--help` text is not modelled either.
- Text.Lower maps only ASCII letters. JavaScript's Unicode case mapping is not modelled, so the slugifiers, tag slugs and image extensions are exact only on ASCII text.
- I18nPaths.LangFromPath accepts only the two language codes. The site tests `lang in ui`, which also accepts keys inherited from `Object.prototype`, such as `constructor`. The model does not carry the prototype chain. A third path segment such as `toString` would give that text as the language in the site and `en` in the model.
- Object key order is modelled by insertion order (`OrderedDict`). Keys that look like array indices, which JavaScript enumerates first, are not modelled. The translation tables are keyed by locale codes, which never look like indices.
- Console output, colours and progress messages are not modelled. Exit codes and counters are.
- The audit's `formatBytes`, percentages and recommendation texts are not modelled. They are floating-point output. The model keeps the classification, the byte totals, the issues and the exit code.
- React state and effects in `Spec.jsx` are not modelled. The model keeps `generateSlug` and the slice that drops the frontmatter.
- Other parts are not part of this model:
  - the admin paste cleaner;
  - the table-of-contents observer;
  - the image optimizer middleware, apart from the names of the WebP and AVIF versions it writes (`ImageAudit.OptimisedName`);
  - the placeholder generator;
  - the schema copiers and the chmod bootstrap of `cms/src/index.ts`;
  - the configuration files.
- The request handler of the webhook is modelled from the parsed request on. Reading the body in chunks is I/O and is not modelled.
- StrapiWebhook.HandleOrder: the path written is the press directory, `/` and the file name, as text. `path.join` also resolves `..` segments, and that is not modelled. So a payload slug such as `../../x` makes the script write `x.mdx` outside the press directory, while the model's path only contains those segments.
- StrapiWebhook.DroppedIff: `Dropped` stands for the throw inside the async `end` callback. On Node.js 15 and later that unhandled rejection ends the whole process, so later requests get no answer either. The process is not modelled.
- StrapiWebhook.JsValue: a JSON number is an integer here. JSON numbers are IEEE doubles, so fractions, exponents and integers beyond 2^53 are not modelled. The webhook only tests numbers for truthiness and writes them as text.
- SyncMdx.Convert: an all-digit value becomes an unbounded `Int`. The script's `parseInt` gives a double, so a numeric slug above 2^53 loses precision and its text changes. The model keeps every digit.
- ExportTranslations.ParseLimit: the limit is an unbounded natural number. `parseInt` gives a double, which loses precision above 2^53. A value with no number in front reads as NaN in the script and as 0 here, and both mean no limit.
- FetchStrapi.RequestUrl: the base URL is a text. When `STRAPI_URL` is unset, `base.replace` throws a TypeError for every endpoint that does not start with `http`, and that failure is not modelled.

## Findings

| source | as written | input that shows it | evidently intended | confidence | as-written member | corrected member |
|---|---|---|---|---|---|---|
| cms/scripts/sync-mdx.cjs:273 | An all-digit frontmatter slug is parsed into a number before it goes into `processedSlugs`. The orphan test then asks `processedSlugs.has(entry.slug)` with the CMS entry's text slug, and a number never equals a text. | A file whose frontmatter says `slug: 42` and a CMS entry whose slug is `"42"`: the entry is updated from the file, then deleted as an orphan. | An entry is kept when some file claims its slug, whatever type the frontmatter parser gave that slug. | not executed | SyncMdx.NumericSlugDeletedInRun | SyncMdx.ClaimedSurvives |
| scripts/audit-images.js:72 | The original's key is `path.basename(file, ext.toLowerCase())`, and `basename` removes a suffix only on an exact, case-sensitive match. So an upper-case extension stays in the key, while the WebP and AVIF versions are keyed without it. | The listing `Photo.JPG`, `Photo.webp`, `Photo.avif`, `small_Photo.jpg`: the original is keyed `Photo.JPG` and its versions `Photo`, so the original is reported as missing its WebP and AVIF versions and the audit exits 1. | The key is the name without its extension, whatever its case, so that an original and its optimised versions share it. | not executed | ImageAudit.PhotoListingFailsAsWritten | ImageAudit.PhotoListingPassesIntended |
| scripts/strapi-webhook.mjs:99-100 | `verifySignature` returns `true` when there is no secret or no signature header, so a configured secret is never required. | A request to `/press` with a valid JSON body and no `x-strapi-signature` header, while `STRAPI_WEBHOOK_SECRET` is set: it passes the check and the file is written. | Once a secret is configured, a request without a matching signature is refused with 401. | not executed | StrapiWebhook.MissingHeaderAccepted | StrapiWebhook.EnforcedNeedsSignature |
