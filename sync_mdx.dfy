/** The MDX → CMS synchronisation script: it reads the frontmatter of every
    `.mdx` file of a content directory, creates or updates one CMS entry per
    file, and deletes the fetched CMS entries whose slug no file claimed. */
module SyncMdx {
  import opened Text
  import opened FrontmatterBlock

  /** A frontmatter value after parsing: all-digit values become numbers. */
  datatype FmValue = Str(s: string) | Int(n: nat)

  /** JavaScript truthiness of a parsed value. */
  predicate Truthy(v: FmValue) {
    match v
    case Str(s) => s != ""
    case Int(n) => n != 0
  }

  predicate IsQuote(c: char) { c == '"' || c == '\'' }

  /** One leading and one trailing quote character are removed, each on its
      own: the two need not match and a lone quote leaves nothing. */
  function StripQuotes(v: string): (r: string)
    ensures |v| == 0 ==> r == v
    ensures |v| == 1 ==> r == (if IsQuote(v[0]) then "" else v)
    ensures |v| >= 2 && IsQuote(v[0]) && IsQuote(v[|v| - 1]) ==> r == v[1..|v| - 1]
    ensures |v| >= 2 && IsQuote(v[0]) && !IsQuote(v[|v| - 1]) ==> r == v[1..]
    ensures |v| >= 2 && !IsQuote(v[0]) && IsQuote(v[|v| - 1]) ==> r == v[..|v| - 1]
    ensures |v| >= 1 && !IsQuote(v[0]) && !IsQuote(v[|v| - 1]) ==> r == v
  {
    var a := if |v| > 0 && IsQuote(v[0]) then v[1..] else v;
    if |a| > 0 && IsQuote(a[|a| - 1]) then a[..|a| - 1] else a
  }

  /** An all-digit value is read as a number, anything else is kept as text. */
  function Convert(v: string): (r: FmValue)
    ensures r.Int? <==> AllDigits(v)
    ensures r.Str? ==> r.s == v
  {
    if AllDigits(v) then Int(DecimalValue(v)) else Str(v)
  }

  /** A number written in decimal converts back to itself. */
  lemma ConvertNumber(n: nat)
    ensures Convert(NatToString(n)) == Int(n)
  {
    DecimalOfNatToString(n);
  }

  /** What one frontmatter line contributes: its key and its converted value. */
  function LineField(line: string): (r: Option<(string, FmValue)>)
    ensures r.Some? <==> KeyValue(line).Some?
  {
    match KeyValue(line)
    case None => None
    case Some((k, v)) => Some((k, Convert(StripQuotes(v))))
  }

  /** The frontmatter object this parser builds from the lines of a block. */
  function Fields(lines: seq<string>): map<string, FmValue> {
    FoldFields(LineField, lines)
  }

  lemma FieldsSnoc(lines: seq<string>, i: int)
    requires 0 <= i < |lines|
    ensures var colon := IndexOf(lines[i], ':');
      Fields(lines[..i + 1]) == if colon > 0
        then Fields(lines[..i])[Trim(lines[i][..colon]) := Convert(StripQuotes(Trim(lines[i][colon + 1..])))]
        else Fields(lines[..i])
  {
    FoldFieldsSnoc(LineField, lines, i);
  }

  /** The parsed form of one file: its frontmatter object and its body. */
  datatype Parsed = Parsed(frontmatter: map<string, FmValue>, content: string)

  /** What parsing a file's text gives, as a specification: without a
      frontmatter block the result is empty; otherwise the block's lines give
      the fields and the body after the closing delimiter is trimmed. */
  function ParseSpec(text: string): (p: Parsed)
    ensures MatchBlock(text).None? ==> p == Parsed(map[], "")
    ensures MatchBlock(text).Some? ==> p.content == Trim(MatchBlock(text).value.body)
  {
    match MatchBlock(text)
    case None => Parsed(map[], "")
    case Some(b) => Parsed(Fields(Split(b.frontmatter, '\n')), Trim(b.body))
  }

  /** A file written as a frontmatter block of safe lines and a body parses
      back to the fields of those lines and the trimmed body. */
  lemma ParseSpecOfDocument(lines: seq<string>, body: string)
    requires |lines| >= 1 && SafeLines(lines)
    ensures ParseSpec(Opening + Join(lines, "\n") + Closing + body) == Parsed(Fields(lines), Trim(body))
  {
    DocumentMatches(lines, body);
    SplitJoin(lines, '\n');
  }

  /** Parses a file's text: without a frontmatter block the result is empty;
      otherwise the lines of the block are read in order and the body after the
      closing delimiter is trimmed. */
  method ParseMdx(text: string) returns (p: Parsed)
    ensures p == ParseSpec(text)
    ensures MatchBlock(text).None? ==> p == Parsed(map[], "")
    ensures MatchBlock(text).Some? ==>
      p.frontmatter == Fields(Split(MatchBlock(text).value.frontmatter, '\n'))
      && p.content == Trim(MatchBlock(text).value.body)
  {
    var m := MatchBlock(text);
    if m.None? {
      return Parsed(map[], "");
    }
    var lines := Split(m.value.frontmatter, '\n');
    var fm: map<string, FmValue> := map[];
    var i := 0;
    while i < |lines|
      invariant 0 <= i <= |lines|
      invariant fm == Fields(lines[..i])
    {
      FieldsSnoc(lines, i);
      var colon := IndexOf(lines[i], ':');
      if colon > 0 {
        var key := Trim(lines[i][..colon]);
        var value := Trim(lines[i][colon + 1..]);
        value := StripQuotes(value);
        fm := fm[key := Convert(value)];
      }
      i := i + 1;
    }
    assert lines[..i] == lines;
    return Parsed(fm, Trim(m.value.body));
  }

  /** `file.replace(/\.mdx$/, '').replace(/^\d{4}-\d{2}-\d{2}-/, '')` */
  function NameSlug(file: string): (r: string)
    requires EndsWith(file, ".mdx")
    ensures |r| <= |file| - 4
  {
    var stem := file[..|file| - 4];
    if HasDatePrefix(stem) then stem[11..] else stem
  }

  /** The text starts with `YYYY-MM-DD-`. */
  predicate HasDatePrefix(s: string) {
    |s| >= 11
    && IsDigit(s[0]) && IsDigit(s[1]) && IsDigit(s[2]) && IsDigit(s[3]) && s[4] == '-'
    && IsDigit(s[5]) && IsDigit(s[6]) && s[7] == '-'
    && IsDigit(s[8]) && IsDigit(s[9]) && s[10] == '-'
  }

  /** A name of the form `YYYY-MM-DD-rest.mdx` gives `rest`; a name without a
      date prefix gives the name without `.mdx`. */
  lemma NameSlugOf(date: string, rest: string)
    requires |date| == 10 && HasDatePrefix(date + "-")
    ensures NameSlug(date + "-" + rest + ".mdx") == rest
    ensures !HasDatePrefix(rest) ==> NameSlug(rest + ".mdx") == rest
  {
    var f := date + "-" + rest + ".mdx";
    assert f[..|f| - 4] == date + "-" + rest;
    assert (date + "-" + rest)[..11] == date + "-";
    assert (rest + ".mdx")[..|rest|] == rest;
  }

  /** One scanned file. */
  datatype MdxFile = MdxFile(file: string, slug: FmValue, frontmatter: map<string, FmValue>, content: string)

  /** The slug a file is synchronised under: the frontmatter slug when truthy,
      otherwise the one derived from the file name. */
  function FileSlug(file: string, fm: map<string, FmValue>): (r: FmValue)
    requires EndsWith(file, ".mdx")
    ensures Truthy(r) || r == Str(NameSlug(file))
    ensures r != Str(NameSlug(file)) ==> "slug" in fm && r == fm["slug"]
    ensures "slug" in fm && Truthy(fm["slug"]) ==> r == fm["slug"]
    ensures !("slug" in fm && Truthy(fm["slug"])) ==> r == Str(NameSlug(file))
  {
    if "slug" in fm && Truthy(fm["slug"]) then fm["slug"] else Str(NameSlug(file))
  }

  /** The record the scan builds for one `.mdx` file from its name and text. */
  function ScanFile(name: string, text: string): (f: MdxFile)
    requires EndsWith(name, ".mdx")
    ensures f.file == name && f.slug == FileSlug(name, f.frontmatter)
    ensures (f.frontmatter, f.content) == (ParseSpec(text).frontmatter, ParseSpec(text).content)
  {
    var p := ParseSpec(text);
    MdxFile(name, FileSlug(name, p.frontmatter), p.frontmatter, p.content)
  }

  /** The scan over a directory listing (name and text of each entry, in
      listing order), as a specification: one record per `.mdx` entry, in
      order. */
  function ScanSpec(listing: seq<(string, string)>): (files: seq<MdxFile>)
    ensures |files| <= |listing|
    ensures forall i :: 0 <= i < |files| ==>
      EndsWith(files[i].file, ".mdx") && files[i].slug == FileSlug(files[i].file, files[i].frontmatter)
  {
    if |listing| == 0 then []
    else
      var (name, text) := listing[|listing| - 1];
      ScanSpec(listing[..|listing| - 1]) + (if EndsWith(name, ".mdx") then [ScanFile(name, text)] else [])
  }

  /** `f` is the record built from the entry at `i`, an `.mdx` file. */
  predicate ScannedFrom(listing: seq<(string, string)>, i: int, f: MdxFile) {
    0 <= i < |listing| && EndsWith(listing[i].0, ".mdx") && f == ScanFile(listing[i].0, listing[i].1)
  }

  lemma ScanSpecSnoc(listing: seq<(string, string)>, f: MdxFile)
    requires |listing| > 0
    ensures f in ScanSpec(listing) <==> f in ScanSpec(listing[..|listing| - 1]) || ScannedFrom(listing, |listing| - 1, f)
  {
  }

  lemma ScannedFromPrefix(listing: seq<(string, string)>, i: int, f: MdxFile)
    requires 0 <= i < |listing| - 1
    ensures ScannedFrom(listing[..|listing| - 1], i, f) <==> ScannedFrom(listing, i, f)
  {
    assert listing[..|listing| - 1][i] == listing[i];
  }

  /** A record is scanned exactly when it is built from some `.mdx` entry of
      the listing. */
  lemma {:induction false} ScanSpecMembers(listing: seq<(string, string)>, f: MdxFile)
    ensures f in ScanSpec(listing) <==> exists i :: ScannedFrom(listing, i, f)
    decreases |listing|
  {
    if |listing| > 0 {
      var init, n := listing[..|listing| - 1], |listing| - 1;
      hide *;
      ScanSpecSnoc(listing, f);
      ScanSpecMembers(init, f);
      if exists i :: ScannedFrom(init, i, f) {
        var i :| ScannedFrom(init, i, f);
        ScannedFromPrefix(listing, i, f);
      }
      if exists i :: ScannedFrom(listing, i, f) {
        var i :| ScannedFrom(listing, i, f);
        if i < n {
          ScannedFromPrefix(listing, i, f);
        }
      }
    }
  }

  /** Reads every `.mdx` file of the directory; a missing directory gives no
      files. */
  method ScanMdxFiles(dir: Option<seq<(string, string)>>) returns (files: seq<MdxFile>)
    ensures files == if dir.None? then [] else ScanSpec(dir.value)
    ensures forall i :: 0 <= i < |files| ==>
      EndsWith(files[i].file, ".mdx") && files[i].slug == FileSlug(files[i].file, files[i].frontmatter)
  {
    files := [];
    if dir.None? {
      return;
    }
    var listing := dir.value;
    var i := 0;
    while i < |listing|
      invariant 0 <= i <= |listing|
      invariant files == ScanSpec(listing[..i])
    {
      assert listing[..i + 1][..i] == listing[..i];
      var (name, text) := listing[i];
      if EndsWith(name, ".mdx") {
        var p := ParseMdx(text);
        var slug := FileSlug(name, p.frontmatter);
        files := files + [MdxFile(name, slug, p.frontmatter, p.content)];
      }
      i := i + 1;
    }
    assert listing[..i] == listing;
  }

  /** The text a slug value has in a request URL or a JSON comparison by text. */
  function SlugText(v: FmValue): string {
    match v
    case Str(s) => s
    case Int(n) => NatToString(n)
  }

  datatype ContentType = Blog | Events

  /** The record sent to the CMS for one file. */
  datatype Data =
    | BlogData(title: Option<FmValue>, description: Option<FmValue>, slug: FmValue, date: Option<FmValue>, content: string, publishedAt: string)
    | EventData(title: Option<FmValue>, slug: FmValue, order: FmValue, content: string, publishedAt: string)

  function Lookup(fm: map<string, FmValue>, key: string): Option<FmValue> {
    if key in fm then Some(fm[key]) else None
  }

  /** The record for one file; `toHtml` is the markdown converter and `now` the
      publication time stamp. */
  function EntryData(ct: ContentType, f: MdxFile, toHtml: string -> string, now: string): (d: Data)
    ensures d.slug == f.slug && d.content == toHtml(f.content) && d.publishedAt == now
    ensures d.EventData? <==> ct == Events
    ensures d.EventData? ==> Truthy(d.order) || d.order == Int(0)
  {
    match ct
    case Blog => BlogData(Lookup(f.frontmatter, "title"), Lookup(f.frontmatter, "description"), f.slug,
                          Lookup(f.frontmatter, "date"), toHtml(f.content), now)
    case Events =>
      var order := if "order" in f.frontmatter && Truthy(f.frontmatter["order"]) then f.frontmatter["order"] else Int(0);
      EventData(Lookup(f.frontmatter, "title"), f.slug, order, toHtml(f.content), now)
  }

  datatype Counts = Counts(created: nat, updated: nat, deleted: nat, errors: nat)

  /** The CMS as this script sees it: entries keyed by slug text. */
  type Cms = map<string, Data>

  /** The upsert phase over the files, as a specification: each file looks its
      slug up in the live CMS, updates a hit and creates otherwise; a file
      whose requests fail counts one error; in a dry run nothing is sent. */
  function Upserts(ct: ContentType, files: seq<MdxFile>, cms: Cms, failing: set<string>, dryRun: bool,
                   toHtml: string -> string, now: string): (Cms, Counts)
  {
    if |files| == 0 then (cms, Counts(0, 0, 0, 0))
    else
      var (c, k) := Upserts(ct, files[..|files| - 1], cms, failing, dryRun, toHtml, now);
      var f := files[|files| - 1];
      var key := SlugText(f.slug);
      if key in failing then (c, k.(errors := k.errors + 1))
      else if key in c then
        (if dryRun then c else c[key := EntryData(ct, f, toHtml, now)], k.(updated := k.updated + 1))
      else
        (if dryRun then c else c[key := EntryData(ct, f, toHtml, now)], k.(created := k.created + 1))
  }

  /** Whether a fetched entry's slug was claimed by a scanned file. The script
      tests the entry's text slug against the set of slug values; see
      `ClaimedAsWritten` for what that test misses. */
  predicate Claimed(slugs: set<FmValue>, entry: string) {
    exists v :: v in slugs && SlugText(v) == entry
  }

  /** The script's own test, `processedSlugs.has(entry.slug)`: a numeric
      frontmatter slug never equals the entry's text slug. */
  predicate ClaimedAsWritten(slugs: set<FmValue>, entry: string) {
    Str(entry) in slugs
  }

  /** A file whose frontmatter slug is all digits is looked up, and updated,
      under the entry with that text slug, yet the entry is not claimed by the
      written test and is deleted in the same run. */
  lemma NumericSlugDeleted()
    ensures var f := Convert("42");
      SlugText(f) == "42" && !ClaimedAsWritten({f}, "42") && Claimed({f}, "42")
  {
    assert AllDigits("42");
    assert DecimalValue("42") == 42 by {
      assert "42"[..1] == "4";
      assert "4"[..0] == "";
    }
    assert NatToString(42) == "42";
  }

  /** The corrected test agrees with the written one on text slugs. */
  lemma ClaimedTextSlugs(slugs: set<FmValue>, entry: string)
    requires forall v :: v in slugs ==> v.Str?
    ensures Claimed(slugs, entry) <==> ClaimedAsWritten(slugs, entry)
  {
    if Claimed(slugs, entry) {
      var v :| v in slugs && SlugText(v) == entry;
      assert v == Str(entry);
    }
    if ClaimedAsWritten(slugs, entry) {
      assert SlugText(Str(entry)) == entry;
    }
  }

  /** Which test decides that a fetched entry is claimed: the script's own,
      or the corrected one. */
  datatype ClaimTest = AsWritten | Intended

  predicate Claims(t: ClaimTest, slugs: set<FmValue>, entry: string) {
    if t.AsWritten? then ClaimedAsWritten(slugs, entry) else Claimed(slugs, entry)
  }

  function SlugSet(files: seq<MdxFile>): set<FmValue> {
    set i | 0 <= i < |files| :: files[i].slug
  }

  /** The fetched entries no scanned file claimed by test `t`, in fetch
      order. */
  function Orphans(t: ClaimTest, page: seq<string>, slugs: set<FmValue>): (r: seq<string>)
    ensures |r| <= |page|
  {
    if |page| == 0 then []
    else
      Orphans(t, page[..|page| - 1], slugs)
      + (if Claims(t, slugs, page[|page| - 1]) then [] else [page[|page| - 1]])
  }

  /** An entry is an orphan exactly when it is on the page and no scanned
      file claims it by test `t`. */
  lemma {:induction false} OrphansMembers(t: ClaimTest, page: seq<string>, slugs: set<FmValue>, s: string)
    ensures s in Orphans(t, page, slugs) <==> s in page && !Claims(t, slugs, s)
    decreases |page|
  {
    if |page| > 0 {
      var init := page[..|page| - 1];
      OrphansMembers(t, init, slugs, s);
      assert page == init + [page[|page| - 1]];
    }
  }

  /** The delete phase, as a specification. */
  function Deletes(orphans: seq<string>, cms: Cms, failing: set<string>, dryRun: bool, k: Counts): (Cms, Counts)
  {
    if |orphans| == 0 then (cms, k)
    else
      var (c, k1) := Deletes(orphans[..|orphans| - 1], cms, failing, dryRun, k);
      var s := orphans[|orphans| - 1];
      if !dryRun && s in failing then (c, k1.(errors := k1.errors + 1))
      else (if dryRun then c else c - {s}, k1.(deleted := k1.deleted + 1))
  }

  /** The page of entries the script fetches: the first 100 of the listing. */
  const PageSize: nat := 100

  function FirstPage(listing: seq<string>): (r: seq<string>)
    ensures |r| <= PageSize && |r| <= |listing|
    ensures r == listing[..|r|]
    ensures |listing| <= PageSize ==> r == listing
  {
    if |listing| <= PageSize then listing else listing[..PageSize]
  }

  /** The upsert loop: every file's slug is recorded as processed before its
      requests are tried. */
  method UpsertAll(ct: ContentType, files: seq<MdxFile>, cms: Cms, upsertFails: set<string>, dryRun: bool,
                   toHtml: string -> string, now: string)
    returns (c: Cms, k: Counts, processed: set<FmValue>)
    ensures (c, k) == Upserts(ct, files, cms, upsertFails, dryRun, toHtml, now)
    ensures processed == SlugSet(files)
  {
    k := Counts(0, 0, 0, 0);
    processed := {};
    c := cms;
    var i := 0;
    while i < |files|
      invariant 0 <= i <= |files|
      invariant processed == SlugSet(files[..i])
      invariant (c, k) == Upserts(ct, files[..i], cms, upsertFails, dryRun, toHtml, now)
    {
      assert files[..i + 1][..i] == files[..i];
      var f := files[i];
      processed := processed + {f.slug};
      var key := SlugText(f.slug);
      if key in upsertFails {
        k := k.(errors := k.errors + 1);
      } else {
        var data := EntryData(ct, f, toHtml, now);
        if key in c {
          if !dryRun {
            c := c[key := data];
          }
          k := k.(updated := k.updated + 1);
        } else {
          if !dryRun {
            c := c[key := data];
          }
          k := k.(created := k.created + 1);
        }
      }
      SlugSetSnoc(files, i);
      i := i + 1;
    }
    assert files[..i] == files;
  }

  lemma SlugSetSnoc(files: seq<MdxFile>, i: int)
    requires 0 <= i < |files|
    ensures SlugSet(files[..i + 1]) == SlugSet(files[..i]) + {files[i].slug}
  {
    assert forall j :: 0 <= j < i ==> files[..i + 1][j] == files[..i][j];
    assert files[..i + 1][i] == files[i];
  }

  /** The delete loop over the fetched page, with the script's test
      `processedSlugs.has(entry.slug)`. */
  method DeleteOrphans(page: seq<string>, processed: set<FmValue>, cms: Cms, deleteFails: set<string>, dryRun: bool, k0: Counts)
    returns (c: Cms, k: Counts)
    ensures (c, k) == Deletes(Orphans(AsWritten, page, processed), cms, deleteFails, dryRun, k0)
  {
    c, k := cms, k0;
    var orphans: seq<string> := [];
    var j := 0;
    assert Orphans(AsWritten, page[..0], processed) == [] && Deletes([], cms, deleteFails, dryRun, k0) == (cms, k0);
    hide *;
    while j < |page|
      invariant 0 <= j <= |page|
      invariant orphans == Orphans(AsWritten, page[..j], processed)
      invariant (c, k) == Deletes(orphans, cms, deleteFails, dryRun, k0)
    {
      OrphansSnoc(AsWritten, page, j, processed);
      var s := page[j];
      ClaimsAsWritten(processed, s);
      if Str(s) !in processed {
        DeletesSnoc(orphans, s, cms, deleteFails, dryRun, k0);
        orphans := orphans + [s];
        if !dryRun && s in deleteFails {
          k := k.(errors := k.errors + 1);
        } else {
          if !dryRun {
            c := c - {s};
          }
          k := k.(deleted := k.deleted + 1);
        }
      }
      j := j + 1;
    }
    assert page[..j] == page;
  }

  lemma OrphansSnoc(t: ClaimTest, page: seq<string>, j: int, slugs: set<FmValue>)
    requires 0 <= j < |page|
    ensures Orphans(t, page[..j + 1], slugs)
      == Orphans(t, page[..j], slugs) + (if Claims(t, slugs, page[j]) then [] else [page[j]])
  {
    assert page[..j + 1][..j] == page[..j];
  }

  lemma ClaimsAsWritten(slugs: set<FmValue>, entry: string)
    ensures Claims(AsWritten, slugs, entry) <==> Str(entry) in slugs
  {
  }

  lemma DeletesSnoc(orphans: seq<string>, s: string, cms: Cms, failing: set<string>, dryRun: bool, k: Counts)
    ensures var (c, k1) := Deletes(orphans, cms, failing, dryRun, k);
      Deletes(orphans + [s], cms, failing, dryRun, k)
      == if !dryRun && s in failing then (c, k1.(errors := k1.errors + 1))
         else (if dryRun then c else c - {s}, k1.(deleted := k1.deleted + 1))
  {
    assert (orphans + [s])[..|orphans|] == orphans;
  }

  /** Synchronises one content type. `listing` is the CMS's entry listing, or
      `None` when fetching it fails (the whole content type then fails).
      Upserts of slugs in `upsertFails` and deletions of slugs in
      `deleteFails` fail and count an error. */
  method SyncContentType(ct: ContentType, files: seq<MdxFile>, cms: Cms, listing: Option<seq<string>>,
                         upsertFails: set<string>, deleteFails: set<string>, dryRun: bool,
                         toHtml: string -> string, now: string)
    returns (result: Option<Counts>, cms': Cms)
    ensures listing.None? ==> result.None? && cms' == cms
    ensures listing.Some? ==> result.Some?
    ensures listing.Some? ==>
      var (c1, k1) := Upserts(ct, files, cms, upsertFails, dryRun, toHtml, now);
      (cms', result.value) == Deletes(Orphans(AsWritten, FirstPage(listing.value), SlugSet(files)), c1, deleteFails, dryRun, k1)
  {
    if listing.None? {
      return None, cms;
    }
    var page := FirstPage(listing.value);
    var c, k, processed := UpsertAll(ct, files, cms, upsertFails, dryRun, toHtml, now);
    c, k := DeleteOrphans(page, processed, c, deleteFails, dryRun, k);
    return Some(k), c;
  }

  function Total(k: Counts): nat { k.created + k.updated + k.deleted + k.errors }

  /** Every file moves exactly one of created, updated or errors. */
  lemma {:induction false} UpsertsCount(ct: ContentType, files: seq<MdxFile>, cms: Cms, failing: set<string>, dryRun: bool,
                                        toHtml: string -> string, now: string)
    ensures var (_, k) := Upserts(ct, files, cms, failing, dryRun, toHtml, now);
      k.deleted == 0 && k.created + k.updated + k.errors == |files|
    decreases |files|
  {
    if |files| > 0 {
      UpsertsCount(ct, files[..|files| - 1], cms, failing, dryRun, toHtml, now);
    }
  }

  /** Every orphan moves exactly one of deleted or errors. */
  lemma {:induction false} DeletesCount(orphans: seq<string>, cms: Cms, failing: set<string>, dryRun: bool, k: Counts)
    ensures var (_, k1) := Deletes(orphans, cms, failing, dryRun, k);
      k1.created == k.created && k1.updated == k.updated && Total(k1) == Total(k) + |orphans|
    decreases |orphans|
  {
    if |orphans| > 0 {
      DeletesCount(orphans[..|orphans| - 1], cms, failing, dryRun, k);
    }
  }

  /** Counters of a whole run: one per file plus one per orphan. */
  lemma SyncCounts(t: ClaimTest, ct: ContentType, files: seq<MdxFile>, cms: Cms, page: seq<string>, upsertFails: set<string>,
                   deleteFails: set<string>, dryRun: bool, toHtml: string -> string, now: string)
    ensures var (c1, k1) := Upserts(ct, files, cms, upsertFails, dryRun, toHtml, now);
      var (_, k2) := Deletes(Orphans(t, page, SlugSet(files)), c1, deleteFails, dryRun, k1);
      k2.created + k2.updated == k1.created + k1.updated
      && Total(k2) == |files| + |Orphans(t, page, SlugSet(files))|
  {
    var (c1, k1) := Upserts(ct, files, cms, upsertFails, dryRun, toHtml, now);
    UpsertsCount(ct, files, cms, upsertFails, dryRun, toHtml, now);
    DeletesCount(Orphans(t, page, SlugSet(files)), c1, deleteFails, dryRun, k1);
  }

  /** A dry run sends nothing: the CMS is left as it was. */
  lemma {:induction false} DryRunUnchanged(ct: ContentType, files: seq<MdxFile>, cms: Cms, orphans: seq<string>,
                                           upsertFails: set<string>, deleteFails: set<string>, toHtml: string -> string, now: string, k: Counts)
    ensures Upserts(ct, files, cms, upsertFails, true, toHtml, now).0 == cms
    ensures Deletes(orphans, cms, deleteFails, true, k).0 == cms
    decreases |files| + |orphans|
  {
    if |files| > 0 {
      DryRunUnchanged(ct, files[..|files| - 1], cms, orphans, upsertFails, deleteFails, toHtml, now, k);
    }
    if |orphans| > 0 {
      DryRunUnchanged(ct, [], cms, orphans[..|orphans| - 1], upsertFails, deleteFails, toHtml, now, k);
    }
  }

  /** After the upsert phase, every file's slug whose requests succeeded is in
      the CMS (in a real run), holding the record of the last such file. */
  lemma {:induction false} UpsertsStore(ct: ContentType, files: seq<MdxFile>, cms: Cms, failing: set<string>,
                                        toHtml: string -> string, now: string, i: int)
    requires 0 <= i < |files| && SlugText(files[i].slug) !in failing
    requires forall j :: i < j < |files| ==> SlugText(files[j].slug) != SlugText(files[i].slug)
    ensures var c := Upserts(ct, files, cms, failing, false, toHtml, now).0;
      var key := SlugText(files[i].slug);
      key in c && c[key] == EntryData(ct, files[i], toHtml, now)
    decreases |files|
  {
    if i < |files| - 1 {
      var init := files[..|files| - 1];
      assert init[i] == files[i];
      forall j | i < j < |init| ensures SlugText(init[j].slug) != SlugText(init[i].slug) {
        assert init[j] == files[j];
      }
      UpsertsStore(ct, init, cms, failing, toHtml, now, i);
    }
  }

  /** The delete phase removes exactly the orphans whose deletion succeeded,
      and leaves every other entry as it was. */
  lemma {:induction false} DeletesEffect(orphans: seq<string>, cms: Cms, failing: set<string>, k: Counts, s: string)
    ensures var c := Deletes(orphans, cms, failing, false, k).0;
      (s in c <==> s in cms && !(s in orphans && s !in failing))
      && (s in c ==> c[s] == cms[s])
    decreases |orphans|
  {
    if |orphans| > 0 {
      DeletesEffect(orphans[..|orphans| - 1], cms, failing, k, s);
      assert orphans == orphans[..|orphans| - 1] + [orphans[|orphans| - 1]];
    }
  }

  /** A file's slug protects the matching CMS entry from deletion even when
      the file's own upsert failed: the entry survives a real run. The
      script's test gives this for text slugs only; the corrected test for
      every slug. */
  lemma ClaimedSurvives(t: ClaimTest, ct: ContentType, files: seq<MdxFile>, cms: Cms, page: seq<string>, upsertFails: set<string>,
                        deleteFails: set<string>, toHtml: string -> string, now: string, i: int)
    requires 0 <= i < |files| && SlugText(files[i].slug) in cms
    requires t.Intended? || files[i].slug.Str?
    ensures var (c1, k1) := Upserts(ct, files, cms, upsertFails, false, toHtml, now);
      SlugText(files[i].slug) in Deletes(Orphans(t, page, SlugSet(files)), c1, deleteFails, false, k1).0
  {
    var key := SlugText(files[i].slug);
    var (c1, k1) := Upserts(ct, files, cms, upsertFails, false, toHtml, now);
    UpsertsKeep(ct, files, cms, upsertFails, toHtml, now, key);
    assert files[i].slug in SlugSet(files);
    assert Claims(t, SlugSet(files), key);
    OrphansMembers(t, page, SlugSet(files), key);
    DeletesEffect(Orphans(t, page, SlugSet(files)), c1, deleteFails, k1, key);
  }

  /** The upsert phase never removes an entry. */
  lemma {:induction false} UpsertsKeep(ct: ContentType, files: seq<MdxFile>, cms: Cms, failing: set<string>,
                                       toHtml: string -> string, now: string, key: string)
    requires key in cms
    ensures key in Upserts(ct, files, cms, failing, false, toHtml, now).0
    decreases |files|
  {
    if |files| > 0 {
      UpsertsKeep(ct, files[..|files| - 1], cms, failing, toHtml, now, key);
    }
  }

  /** A fetched entry that no file claims is gone after a real run unless its
      deletion failed; entries beyond the first page are never deleted. */
  lemma OrphanRemoved(t: ClaimTest, ct: ContentType, files: seq<MdxFile>, cms: Cms, listing: seq<string>, upsertFails: set<string>,
                      deleteFails: set<string>, toHtml: string -> string, now: string, s: string)
    requires !Claims(t, SlugSet(files), s)
    ensures var (c1, k1) := Upserts(ct, files, cms, upsertFails, false, toHtml, now);
      var c2 := Deletes(Orphans(t, FirstPage(listing), SlugSet(files)), c1, deleteFails, false, k1).0;
      (s in FirstPage(listing) && s !in deleteFails ==> s !in c2)
      && (s !in FirstPage(listing) ==> (s in c2 <==> s in c1))
  {
    var (c1, k1) := Upserts(ct, files, cms, upsertFails, false, toHtml, now);
    OrphansMembers(t, FirstPage(listing), SlugSet(files), s);
    DeletesEffect(Orphans(t, FirstPage(listing), SlugSet(files)), c1, deleteFails, k1, s);
  }

  /** The script as written, over a whole real run: a file whose frontmatter
      slug is a number is upserted under the entry with that text slug, and,
      when no file has that slug as text, the entry is then deleted as an
      orphan. */
  lemma NumericSlugDeletedInRun(ct: ContentType, files: seq<MdxFile>, cms: Cms, listing: seq<string>, upsertFails: set<string>,
                                deleteFails: set<string>, toHtml: string -> string, now: string, i: int)
    requires 0 <= i < |files| && files[i].slug.Int?
    requires SlugText(files[i].slug) in FirstPage(listing) && SlugText(files[i].slug) !in deleteFails
    requires forall j :: 0 <= j < |files| ==> files[j].slug != Str(SlugText(files[i].slug))
    ensures var (c1, k1) := Upserts(ct, files, cms, upsertFails, false, toHtml, now);
      var key := SlugText(files[i].slug);
      (key !in upsertFails && (forall j :: i < j < |files| ==> SlugText(files[j].slug) != key) ==>
         key in c1 && c1[key] == EntryData(ct, files[i], toHtml, now))
      && key !in Deletes(Orphans(AsWritten, FirstPage(listing), SlugSet(files)), c1, deleteFails, false, k1).0
  {
    var key := SlugText(files[i].slug);
    if key !in upsertFails && (forall j :: i < j < |files| ==> SlugText(files[j].slug) != key) {
      UpsertsStore(ct, files, cms, upsertFails, toHtml, now, i);
    }
    assert Str(key) !in SlugSet(files);
    OrphanRemoved(AsWritten, ct, files, cms, listing, upsertFails, deleteFails, toHtml, now, key);
  }

  /** The exit status of the script: 1 when no API token is configured or when
      the summed error count over the content types is positive; a content
      type whose sync failed as a whole (`None`) adds one error. */
  function ExitCode(tokenSet: bool, outcomes: seq<Option<Counts>>): (code: int)
    ensures code == 0 || code == 1
    ensures code == 1 <==> !tokenSet || SummedErrors(outcomes) > 0
  {
    if !tokenSet then 1 else if SummedErrors(outcomes) > 0 then 1 else 0
  }

  function SummedErrors(outcomes: seq<Option<Counts>>): nat {
    if |outcomes| == 0 then 0
    else
      SummedErrors(outcomes[..|outcomes| - 1])
      + (match outcomes[|outcomes| - 1] case None => 1 case Some(k) => k.errors)
  }

  /** The summed error count is positive exactly when some content type failed
      as a whole or reported an error. */
  lemma {:induction false} SummedErrorsPositive(outcomes: seq<Option<Counts>>)
    ensures SummedErrors(outcomes) > 0 <==>
      exists i :: 0 <= i < |outcomes| && (outcomes[i].None? || outcomes[i].value.errors > 0)
    decreases |outcomes|
  {
    if |outcomes| > 0 {
      var init := outcomes[..|outcomes| - 1];
      SummedErrorsPositive(init);
      if exists i :: 0 <= i < |init| && (init[i].None? || init[i].value.errors > 0) {
        var i :| 0 <= i < |init| && (init[i].None? || init[i].value.errors > 0);
        assert outcomes[i] == init[i];
      }
      if exists i :: 0 <= i < |outcomes| && (outcomes[i].None? || outcomes[i].value.errors > 0) {
        var i :| 0 <= i < |outcomes| && (outcomes[i].None? || outcomes[i].value.errors > 0);
        if i < |init| {
          assert init[i] == outcomes[i];
        }
      }
    }
  }
}
