/** The CMS lifecycle of the financial services page, a single page: when
    published it is written as `financial-services-page.mdx` (frontmatter
    only) and committed; when unpublished or deleted the file is removed, and
    the removal is committed only when there was a file to remove. */
module FinancialServicesLifecycle {
  import opened Text
  import opened MdxDocument
  import opened Workspace

  datatype FaqItem = FaqItem(title: string, content: string, order: Option<int>)

  /** The page as the CMS passes it to the hooks; optional texts are absent
      when not set. */
  datatype FinancialServicesPage = FinancialServicesPage(
    heroTitle: string, heroDescription: string, programOverview: string,
    applicationNotice: Option<string>, ctaTitle: Option<string>, ctaDescription: Option<string>,
    ctaEmailLabel: Option<string>, ctaSubscribeLabel: Option<string>,
    faqItems: Option<seq<FaqItem>>, publishedAt: Option<string>)

  /** Where the page goes when `FINANCIAL_SERVICES_PAGE_MDX_OUTPUT_PATH` is not
      set. */
  const DefaultOutputDir: string := "src/content/financial-services"
  const FileName: string := "financial-services-page.mdx"
  const UpdateMessage: string := "financial-services: update page content"
  const DeleteMessage: string := "financial-services: delete page content"

  /** `value || fallback` for an optional text. */
  function OrElse(v: Option<string>, fallback: string): (r: string)
    ensures v.Some? && v.value != "" ==> r == v.value
    ensures v.None? || v.value == "" ==> r == fallback
  {
    if v.Some? && v.value != "" then v.value else fallback
  }

  /** `faqItems ?? []` */
  function FaqItemsOrEmpty(items: Option<seq<FaqItem>>): seq<FaqItem> {
    if items.Some? then items.value else []
  }

  /** The frontmatter lines in order; the application notice only when set and
      not empty. `toJson` is `JSON.stringify` of the FAQ items. */
  function Frontmatter(page: FinancialServicesPage, toJson: seq<FaqItem> -> string): seq<Entry> {
    Hero(page) + Notice(page) + CallToAction(page)
    + [Field("faqItems", Plain(toJson(FaqItemsOrEmpty(page.faqItems))))]
  }

  function Hero(page: FinancialServicesPage): seq<Entry> {
    [Field("heroTitle", Quoted(page.heroTitle)),
     Field("heroDescription", Quoted(page.heroDescription)),
     Field("programOverview", Quoted(page.programOverview))]
  }

  function Notice(page: FinancialServicesPage): seq<Entry> {
    if page.applicationNotice.Some? && page.applicationNotice.value != ""
    then [Field("applicationNotice", Quoted(page.applicationNotice.value))] else []
  }

  /** The four call-to-action fields, with their fallbacks. */
  function CallToAction(page: FinancialServicesPage): (r: seq<Entry>)
    ensures |r| == 4
    ensures r[0] == Field("ctaTitle", Quoted(OrElse(page.ctaTitle, "")))
    ensures r[1] == Field("ctaDescription", Quoted(OrElse(page.ctaDescription, "")))
    ensures r[2] == Field("ctaEmailLabel", Quoted(OrElse(page.ctaEmailLabel, "Contact Us")))
    ensures r[3] == Field("ctaSubscribeLabel", Quoted(OrElse(page.ctaSubscribeLabel, "Subscribe for Updates")))
  {
    [Field("ctaTitle", Quoted(OrElse(page.ctaTitle, ""))),
     Field("ctaDescription", Quoted(OrElse(page.ctaDescription, ""))),
     Field("ctaEmailLabel", Quoted(OrElse(page.ctaEmailLabel, "Contact Us"))),
     Field("ctaSubscribeLabel", Quoted(OrElse(page.ctaSubscribeLabel, "Subscribe for Updates")))]
  }

  /** The page has no body: the document ends with the closing `---` line. */
  function GenerateMdx(page: FinancialServicesPage, toJson: seq<FaqItem> -> string): (doc: string)
    ensures EndsWith(doc, "\n---\n")
  {
    var doc := Document(Frontmatter(page, toJson), "");
    assert doc[|doc| - 5..] == "\n---\n";
    doc
  }

  /** No text of the page holds a line break. */
  predicate SingleLineTexts(page: FinancialServicesPage) {
    '\n' !in page.heroTitle && '\n' !in page.heroDescription && '\n' !in page.programOverview
    && (page.applicationNotice.Some? ==> '\n' !in page.applicationNotice.value)
    && (page.ctaTitle.Some? ==> '\n' !in page.ctaTitle.value)
    && (page.ctaDescription.Some? ==> '\n' !in page.ctaDescription.value)
    && (page.ctaEmailLabel.Some? ==> '\n' !in page.ctaEmailLabel.value)
    && (page.ctaSubscribeLabel.Some? ==> '\n' !in page.ctaSubscribeLabel.value)
  }

  /** The written file reads back as the frontmatter it was made from and an
      empty body, as long as the texts are single lines and the JSON of the
      FAQ items is a single line that starts with neither white space nor a
      quote (as `JSON.stringify` of an array writes it). */
  lemma GenerateMdxReadsBack(page: FinancialServicesPage, toJson: seq<FaqItem> -> string)
    requires SingleLineTexts(page)
    requires GoodValue(Plain(toJson(FaqItemsOrEmpty(page.faqItems))))
    ensures ReadDocument(GenerateMdx(page, toJson)) == Some((Frontmatter(page, toJson), ""))
  {
    FrontmatterGood(page, toJson);
    ReadDocumentOfDocument(Frontmatter(page, toJson), "");
    hide ReadDocument, Document, GoodEntry;
  }

  lemma FrontmatterGood(page: FinancialServicesPage, toJson: seq<FaqItem> -> string)
    requires SingleLineTexts(page)
    requires GoodValue(Plain(toJson(FaqItemsOrEmpty(page.faqItems))))
    ensures |Frontmatter(page, toJson)| >= 1
    ensures GoodEntries(Frontmatter(page, toJson))
  {
    KeysGood();
    hide GoodKey;
    var faq := [Field("faqItems", Plain(toJson(FaqItemsOrEmpty(page.faqItems))))];
    assert GoodEntries(Hero(page)) && GoodEntries(Notice(page)) && GoodEntries(faq);
    CallToActionGood(page);
    GoodEntriesConcat(Hero(page), Notice(page));
    GoodEntriesConcat(Hero(page) + Notice(page), CallToAction(page));
    GoodEntriesConcat(Hero(page) + Notice(page) + CallToAction(page), faq);
  }

  lemma CallToActionGood(page: FinancialServicesPage)
    requires SingleLineTexts(page)
    ensures GoodEntries(CallToAction(page))
  {
    KeysGood();
    assert '\n' !in "Contact Us" && '\n' !in "Subscribe for Updates";
    hide GoodKey;
    var cta := CallToAction(page);
    assert GoodEntry(cta[0]) && GoodEntry(cta[1]) && GoodEntry(cta[2]) && GoodEntry(cta[3]);
  }

  lemma KeysGood()
    ensures GoodKey("heroTitle") && GoodKey("heroDescription") && GoodKey("programOverview")
    ensures GoodKey("applicationNotice") && GoodKey("faqItems")
    ensures GoodKey("ctaTitle") && GoodKey("ctaDescription") && GoodKey("ctaEmailLabel") && GoodKey("ctaSubscribeLabel")
  {
  }

  /** Unset or empty call-to-action labels fall back to `Contact Us` and
      `Subscribe for Updates`; the notice is written only when it is set. */
  lemma DefaultsApplied(page: FinancialServicesPage, toJson: seq<FaqItem> -> string)
    requires page.ctaEmailLabel.None? && page.ctaSubscribeLabel.None? && page.applicationNotice.None?
    ensures var es := Frontmatter(page, toJson);
      |es| == 8 && es[5] == Field("ctaEmailLabel", Quoted("Contact Us"))
      && es[6] == Field("ctaSubscribeLabel", Quoted("Subscribe for Updates"))
      && !HasKey(es, "applicationNotice")
  {
    var es := Frontmatter(page, toJson);
    forall i | 0 <= i < |es| ensures es[i].key != "applicationNotice" {
      if i >= 3 && i < 7 {
        assert es[i] == CallToAction(page)[i - 3];
      } else if i < 3 {
        assert es[i] == Hero(page)[i];
      }
    }
  }

  /** The one path the page is written to and removed from. */
  function FilePath(dir: string): string {
    PathJoin(dir, FileName)
  }

  // ---------------------------------------------------------------------
  // Hooks

  /** Writes the page and commits it with the update message. */
  method WriteMdxFile(site: Site, dir: string, page: FinancialServicesPage, toJson: seq<FaqItem> -> string)
    modifies site
    ensures site.files == old(site.files)[FilePath(dir) := GenerateMdx(page, toJson)]
    ensures site.gitLog == old(site.gitLog) + site.GitRun(FilePath(dir), UpdateMessage)
    ensures site.Env() == old(site.Env())
  {
    site.WriteFile(FilePath(dir), GenerateMdx(page, toJson));
    site.GitCommitAndPush(FilePath(dir), UpdateMessage);
  }

  /** Removes the page's file; only an actual removal is committed. */
  method DeleteMdxFile(site: Site, dir: string)
    modifies site
    ensures site.files == old(site.files) - {FilePath(dir)}
    ensures site.gitLog == old(site.gitLog)
      + if FilePath(dir) in old(site.files) then site.GitRun(FilePath(dir), DeleteMessage) else []
    ensures site.Env() == old(site.Env())
  {
    var existed := site.DeleteFile(FilePath(dir));
    if existed {
      site.GitCommitAndPush(FilePath(dir), DeleteMessage);
    }
  }

  method AfterCreate(site: Site, dir: string, result: Option<FinancialServicesPage>, toJson: seq<FaqItem> -> string)
    modifies site
    ensures result.Some? && IsPublished(result.value.publishedAt) ==>
      site.files == old(site.files)[FilePath(dir) := GenerateMdx(result.value, toJson)]
      && site.gitLog == old(site.gitLog) + site.GitRun(FilePath(dir), UpdateMessage)
    ensures !(result.Some? && IsPublished(result.value.publishedAt)) ==>
      site.files == old(site.files) && site.gitLog == old(site.gitLog)
    ensures site.Env() == old(site.Env())
  {
    if result.Some? && IsPublished(result.value.publishedAt) {
      WriteMdxFile(site, dir, result.value, toJson);
    }
  }

  method AfterUpdate(site: Site, dir: string, result: Option<FinancialServicesPage>, toJson: seq<FaqItem> -> string)
    modifies site
    ensures result.Some? && IsPublished(result.value.publishedAt) ==>
      site.files == old(site.files)[FilePath(dir) := GenerateMdx(result.value, toJson)]
      && site.gitLog == old(site.gitLog) + site.GitRun(FilePath(dir), UpdateMessage)
    ensures result.Some? && !IsPublished(result.value.publishedAt) ==>
      site.files == old(site.files) - {FilePath(dir)}
      && site.gitLog == old(site.gitLog)
         + if FilePath(dir) in old(site.files) then site.GitRun(FilePath(dir), DeleteMessage) else []
    ensures result.None? ==> site.files == old(site.files) && site.gitLog == old(site.gitLog)
    ensures site.Env() == old(site.Env())
  {
    if result.Some? {
      if IsPublished(result.value.publishedAt) {
        WriteMdxFile(site, dir, result.value, toJson);
      } else {
        DeleteMdxFile(site, dir);
      }
    }
  }

  /** `afterDelete` ignores the deleted record: the page's file is removed in
      every case. */
  method AfterDelete(site: Site, dir: string)
    modifies site
    ensures site.files == old(site.files) - {FilePath(dir)}
    ensures site.gitLog == old(site.gitLog)
      + if FilePath(dir) in old(site.files) then site.GitRun(FilePath(dir), DeleteMessage) else []
    ensures site.Env() == old(site.Env())
  {
    DeleteMdxFile(site, dir);
  }

  /** Deleting twice commits once: after the first removal the file is gone,
      so the second call neither changes a file nor runs git. */
  method DeleteTwice(site: Site, dir: string)
    modifies site
    ensures site.files == old(site.files) - {FilePath(dir)}
    ensures site.gitLog == old(site.gitLog)
      + if FilePath(dir) in old(site.files) then site.GitRun(FilePath(dir), DeleteMessage) else []
  {
    AfterDelete(site, dir);
    AfterDelete(site, dir);
  }
}
