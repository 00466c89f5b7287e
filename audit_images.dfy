/** The image audit script: it sorts the upload folder's files into originals,
    responsive variants and WebP/AVIF versions, flags the originals that lack
    an optimisation, and exits with 1 when any is flagged. */
module ImageAudit {
  import opened Text

  const MaxSizeKb := 500

  /** The size prefixes of responsive variants, `small_`, `medium_`, ... */
  const VariantSizes: set<string> := {"small", "medium", "large", "xsmall"}

  /** The extensions, lower-cased, of images the audit treats as originals
      or variants. */
  const ImageExts: set<string> := {".jpg", ".jpeg", ".png"}

  /** A directory entry: its name, whether it is a regular file, its size in
      bytes. */
  datatype DirEntry = DirEntry(name: string, isFile: bool, size: nat)

  datatype Image = Image(file: string, size: nat, ext: string)

  /** What the scan collects. */
  datatype Catalog = Catalog(originals: map<string, Image>, webp: set<string>, avif: set<string>,
                             variants: map<string, map<string, Image>>,
                             totalSize: nat, totalWebpSize: nat, totalAvifSize: nat)

  const EmptyCatalog := Catalog(map[], {}, {}, map[], 0, 0, 0)

  // ---------------------------------------------------------------------
  // File names

  /** The last index of `c` in `s`, or -1. */
  function LastIndexOf(s: string, c: char): (k: int)
    ensures -1 <= k < |s|
    ensures k >= 0 ==> s[k] == c
    ensures forall j :: k < j < |s| ==> s[j] != c
  {
    if |s| == 0 then -1
    else if s[|s| - 1] == c then |s| - 1
    else LastIndexOf(s[..|s| - 1], c)
  }

  /** `path.extname` of a plain file name: from the last dot to the end, or
      empty when there is no dot, the only dot leads the name, or the name is
      `..`. */
  function ExtName(file: string): (ext: string)
    ensures ext == [] || (ext[0] == '.' && |ext| < |file| && ext == file[|file| - |ext|..] && '.' !in ext[1..])
  {
    var k := LastIndexOf(file, '.');
    if k <= 0 || file == ".." then "" else
      assert forall i :: 0 <= i < |file| - k - 1 ==> file[k..][1..][i] == file[k + 1 + i];
      file[k..]
  }

  /** An occurrence at `j` bounds the last index from below. */
  lemma {:induction false} LastIndexAtLeast(s: string, c: char, j: int)
    requires 0 <= j < |s| && s[j] == c
    ensures LastIndexOf(s, c) >= j
    decreases |s|
  {
    if s[|s| - 1] != c {
      LastIndexAtLeast(s[..|s| - 1], c, j);
    }
  }

  /** No occurrence after `j` bounds the last index from above. */
  lemma {:induction false} LastIndexAtMost(s: string, c: char, j: int)
    requires 0 <= j < |s| && forall i :: j < i < |s| ==> s[i] != c
    ensures LastIndexOf(s, c) <= j
    decreases |s|
  {
    if j < |s| - 1 {
      LastIndexAtMost(s[..|s| - 1], c, j);
    }
  }

  /** The extension of a name made of a stem and a dot-free suffix. */
  lemma ExtNameOf(stem: string, suffix: string)
    requires |stem| > 0 && |suffix| > 0 && '.' !in suffix
    ensures ExtName(stem + "." + suffix) == "." + suffix
  {
    var file := stem + "." + suffix;
    assert file[|stem|] == '.';
    assert forall i :: |stem| < i < |file| ==> file[i] == suffix[i - |stem| - 1];
    LastIndexAtLeast(file, '.', |stem|);
    LastIndexAtMost(file, '.', |stem|);
    assert file[|stem|..] == "." + suffix;
  }

  /** `path.basename(file, ext)` of a plain file name: `ext` stripped when the
      name ends with it and is longer. */
  function BaseNameStripping(file: string, ext: string): (b: string)
    ensures b == file || b + ext == file
  {
    if |ext| > 0 && |ext| < |file| && file[|file| - |ext|..] == ext then file[..|file| - |ext|] else file
  }

  /** The base name as the script computes it: the lower-cased extension is
      stripped, so a name with an upper-case extension keeps it. */
  function BaseNameAsWritten(file: string): (b: string)
    ensures b == file || b + Lower(ExtName(file)) == file
  {
    BaseNameStripping(file, Lower(ExtName(file)))
  }

  /** The base name as intended: the name without its own extension. */
  function BaseName(file: string): (b: string)
    ensures b + ExtName(file) == file
  {
    BaseNameStripping(file, ExtName(file))
  }

  /** An image with an upper-case extension keeps it in the script's base
      name, so its WebP and AVIF versions, which the image optimiser names
      after the intended base name, are never matched to it. */
  lemma UpperCaseExtensionKept(stem: string, suffix: string)
    requires |stem| > 0 && |suffix| > 0 && '.' !in suffix && Lower(suffix) != suffix
    ensures BaseNameAsWritten(stem + "." + suffix) == stem + "." + suffix
    ensures BaseName(stem + "." + suffix) == stem
  {
    var file := stem + "." + suffix;
    ExtNameOf(stem, suffix);
    var ext := "." + suffix;
    assert file[|file| - |ext|..] == ext;
    assert Lower(ext)[1..] == Lower(suffix) by {
      LowerAppend(".", suffix);
    }
    assert file[..|file| - |ext|] == stem;
  }

  /** A name with a lower-case extension has the same base name both ways. */
  lemma LowerCaseExtensionAgrees(file: string)
    requires Lower(ExtName(file)) == ExtName(file)
    ensures BaseNameAsWritten(file) == BaseName(file)
  {
  }

  // ---------------------------------------------------------------------
  // Variants

  /** No character of `s` ends a line, so `.+` can match all of it. */
  predicate SingleLine(s: string) {
    forall i :: 0 <= i < |s| ==> !IsLineTerminator(s[i])
  }

  /** `^(small|medium|large|xsmall)_(.+)$` for one size. */
  predicate IsVariantOf(base: string, size: string) {
    |base| > |size| + 1 && base[..|size| + 1] == size + "_" && SingleLine(base[|size| + 1..])
  }

  /** `baseName.match(/^(small|medium|large|xsmall)_(.+)$/)`: the size and
      the name it is a variant of. */
  function VariantMatch(base: string): (m: Option<(string, string)>)
    ensures m.Some? ==>
      m.value.0 in VariantSizes && IsVariantOf(base, m.value.0) && base == m.value.0 + "_" + m.value.1
    ensures m.None? <==> forall size :: size in VariantSizes ==> !IsVariantOf(base, size)
  {
    if IsVariantOf(base, "small") then Some(("small", base[6..]))
    else if IsVariantOf(base, "medium") then Some(("medium", base[7..]))
    else if IsVariantOf(base, "large") then Some(("large", base[6..]))
    else if IsVariantOf(base, "xsmall") then Some(("xsmall", base[7..]))
    else None
  }

  /** A size prefix and a one-line name read back as that variant. */
  lemma VariantMatchOf(size: string, name: string)
    requires size in VariantSizes && |name| > 0 && SingleLine(name)
    ensures VariantMatch(size + "_" + name) == Some((size, name))
  {
    var base := size + "_" + name;
    assert base[..|size| + 1] == size + "_" && base[|size| + 1..] == name;
    assert IsVariantOf(base, size);
    assert base[0] == size[0];
    if size == "medium" {
      assert !IsVariantOf(base, "small");
    } else if size == "large" {
      assert !IsVariantOf(base, "small") && !IsVariantOf(base, "medium");
    } else if size == "xsmall" {
      assert !IsVariantOf(base, "small") && !IsVariantOf(base, "medium") && !IsVariantOf(base, "large");
    }
  }

  // ---------------------------------------------------------------------
  // The scan

  /** Where a WebP or AVIF version is recorded: the variant's name, or the
      base name. */
  function VersionKey(base: string): string {
    var m := VariantMatch(base);
    if m.Some? then m.value.1 else base
  }

  /** How a scan keys a file: by the base name the script computes, which
      keeps an upper-case extension, or by the intended one. */
  datatype Keying = AsWritten | Intended

  function Key(k: Keying, file: string): (b: string)
    ensures k.Intended? ==> b + ExtName(file) == file
    ensures k.AsWritten? ==> b == file || b + Lower(ExtName(file)) == file
  {
    if k.AsWritten? then BaseNameAsWritten(file) else BaseName(file)
  }

  /** One turn of the `files.forEach` loop, with base names computed by `k`:
      directories are skipped, every file counts towards the total size and
      is then filed. */
  function Classify(k: Keying, c: Catalog, e: DirEntry): Catalog {
    if !e.isFile then c
    else Filed(c.(totalSize := c.totalSize + e.size), e, Lower(ExtName(e.name)), Key(k, e.name))
  }

  /** Files `e`, of lower-cased extension `ext` and base name `base`: a WebP
      or AVIF version under its key, a JPEG or PNG as a variant or an
      original; anything else is only counted. */
  function Filed(c: Catalog, e: DirEntry, ext: string, base: string): Catalog {
    var m := VariantMatch(base);
    if ext == ".webp" then c.(totalWebpSize := c.totalWebpSize + e.size, webp := c.webp + {VersionKey(base)})
    else if ext == ".avif" then c.(totalAvifSize := c.totalAvifSize + e.size, avif := c.avif + {VersionKey(base)})
    else if ext in ImageExts then
      if m.Some? then
        var sizes := if m.value.1 in c.variants then c.variants[m.value.1] else map[];
        c.(variants := c.variants[m.value.1 := sizes[m.value.0 := Image(e.name, e.size, ext)]])
      else c.(originals := c.originals[base := Image(e.name, e.size, ext)])
    else c
  }

  /** The catalogue after scanning `files` in order, keyed by `k`. */
  function CatalogOf(k: Keying, files: seq<DirEntry>): Catalog
    decreases |files|
  {
    if |files| == 0 then EmptyCatalog
    else Classify(k, CatalogOf(k, files[..|files| - 1]), files[|files| - 1])
  }

  /** The body of the categorising loop for a regular file. */
  method FileEntry(c0: Catalog, e: DirEntry, ext: string, baseName: string) returns (c: Catalog)
    ensures c == Filed(c0, e, ext, baseName)
  {
    c := c0;
    var variantMatch := VariantMatch(baseName);
    if ext == ".webp" {
      c := c.(totalWebpSize := c.totalWebpSize + e.size,
              webp := c.webp + {if variantMatch.Some? then variantMatch.value.1 else baseName});
    } else if ext == ".avif" {
      c := c.(totalAvifSize := c.totalAvifSize + e.size,
              avif := c.avif + {if variantMatch.Some? then variantMatch.value.1 else baseName});
    } else if ext in ImageExts {
      if variantMatch.Some? {
        var (size, name) := variantMatch.value;
        var sizes := if name in c.variants then c.variants[name] else map[];
        c := c.(variants := c.variants[name := sizes[size := Image(e.name, e.size, ext)]]);
      } else {
        c := c.(originals := c.originals[baseName := Image(e.name, e.size, ext)]);
      }
    }
  }

  /** The categorising loop, with the base name computed as the script
      does: `path.basename(file, ext)` with the lower-cased extension. */
  method Categorize(files: seq<DirEntry>) returns (c: Catalog)
    ensures c == CatalogOf(AsWritten, files)
  {
    hide Filed, Lower, ExtName, BaseNameStripping;
    c := EmptyCatalog;
    var i := 0;
    while i < |files|
      invariant 0 <= i <= |files|
      invariant c == CatalogOf(AsWritten, files[..i])
    {
      var e := files[i];
      assert files[..i + 1][..i] == files[..i] && files[..i + 1][i] == e;
      assert CatalogOf(AsWritten, files[..i + 1]) == Classify(AsWritten, c, e);
      ghost var before := c;
      if e.isFile {
        var ext := Lower(ExtName(e.name));
        var baseName := BaseNameStripping(e.name, ext);
        c := c.(totalSize := c.totalSize + e.size);
        c := FileEntry(c, e, ext, baseName);
        assert c == Classify(AsWritten, before, e);
      }
      i := i + 1;
    }
    assert files[..i] == files;
  }

  // ---------------------------------------------------------------------
  // What the scan records, stated entry by entry

  /** `e` is a regular file with lower-cased extension `ext`, recorded under
      `key` as a WebP or AVIF version. */
  predicate IsVersionFile(k: Keying, e: DirEntry, ext: string, key: string) {
    e.isFile && Lower(ExtName(e.name)) == ext && VersionKey(Key(k, e.name)) == key
  }

  /** `e` is a JPEG or PNG file that is not a variant, an original of base
      name `b`. */
  predicate IsOriginalOf(k: Keying, e: DirEntry, b: string) {
    e.isFile && Lower(ExtName(e.name)) in ImageExts && VariantMatch(Key(k, e.name)).None?
      && Key(k, e.name) == b
  }

  /** `e` is a JPEG or PNG file that is a variant of `name`. */
  predicate IsVariantFileOf(k: Keying, e: DirEntry, name: string) {
    e.isFile && Lower(ExtName(e.name)) in ImageExts && VariantMatch(Key(k, e.name)).Some?
      && VariantMatch(Key(k, e.name)).value.1 == name
  }

  function ImageOf(e: DirEntry): Image {
    Image(e.name, e.size, Lower(ExtName(e.name)))
  }

  function Versions(c: Catalog, ext: string): set<string> {
    if ext == ".webp" then c.webp else c.avif
  }

  /** The bytes of the regular files among `files`, summed from the front. */
  function FileBytes(files: seq<DirEntry>): nat {
    if |files| == 0 then 0 else (if files[0].isFile then files[0].size else 0) + FileBytes(files[1..])
  }

  lemma {:induction false} FileBytesSnoc(files: seq<DirEntry>, e: DirEntry)
    ensures FileBytes(files + [e]) == FileBytes(files) + (if e.isFile then e.size else 0)
    decreases |files|
  {
    if |files| > 0 {
      assert (files + [e])[1..] == files[1..] + [e];
      FileBytesSnoc(files[1..], e);
    }
  }

  /** The scan's total is the size of every regular file, and the WebP and
      AVIF totals are part of it. */
  lemma {:induction false} TotalSizeIsFileBytes(k: Keying, files: seq<DirEntry>)
    ensures CatalogOf(k, files).totalSize == FileBytes(files)
    ensures CatalogOf(k, files).totalWebpSize + CatalogOf(k, files).totalAvifSize <= CatalogOf(k, files).totalSize
    decreases |files|
  {
    hide Lower, ExtName, Key, VariantMatch;
    if |files| > 0 {
      var init, e := files[..|files| - 1], files[|files| - 1];
      assert files == init + [e];
      TotalSizeIsFileBytes(k, init);
      FileBytesSnoc(init, e);
    }
  }

  lemma CatalogSnoc(k: Keying, files: seq<DirEntry>)
    requires |files| > 0
    ensures CatalogOf(k, files) == Classify(k, CatalogOf(k, files[..|files| - 1]), files[|files| - 1])
  {
  }

  lemma CatalogEmpty(k: Keying, files: seq<DirEntry>)
    requires |files| == 0
    ensures CatalogOf(k, files) == EmptyCatalog
  {
  }

  lemma VersionsStep(k: Keying, c: Catalog, e: DirEntry, ext: string, key: string)
    requires ext == ".webp" || ext == ".avif"
    ensures key in Versions(Classify(k, c, e), ext) <==> key in Versions(c, ext) || IsVersionFile(k, e, ext, key)
  {
    hide ExtName, Key, VariantMatch;
  }

  /** A key is recorded as having a WebP (AVIF) version exactly when some
      file with that extension is recorded under it. */
  lemma {:induction false} VersionsRecorded(k: Keying, files: seq<DirEntry>, ext: string, key: string)
    requires ext == ".webp" || ext == ".avif"
    ensures key in Versions(CatalogOf(k, files), ext) <==>
      exists i :: 0 <= i < |files| && IsVersionFile(k, files[i], ext, key)
    decreases |files|
  {
    hide Classify, IsVersionFile, CatalogOf;
    if |files| > 0 {
      var init, e := files[..|files| - 1], files[|files| - 1];
      CatalogSnoc(k, files);
      VersionsRecorded(k, init, ext, key);
      VersionsStep(k, CatalogOf(k, init), e, ext, key);
      if key in Versions(CatalogOf(k, files), ext) {
        if key in Versions(CatalogOf(k, init), ext) {
          var i :| 0 <= i < |init| && IsVersionFile(k, init[i], ext, key);
          assert files[i] == init[i];
        } else {
          assert IsVersionFile(k, files[|files| - 1], ext, key);
        }
      }
      if exists i :: 0 <= i < |files| && IsVersionFile(k, files[i], ext, key) {
        var i :| 0 <= i < |files| && IsVersionFile(k, files[i], ext, key);
        if i < |init| {
          assert IsVersionFile(k, init[i], ext, key);
        }
      }
    } else {
      CatalogEmpty(k, files);
    }
  }

  lemma OriginalsStep(k: Keying, c: Catalog, e: DirEntry)
    ensures Classify(k, c, e).originals ==
      if IsOriginalOf(k, e, Key(k, e.name)) then c.originals[Key(k, e.name) := ImageOf(e)] else c.originals
  {
    hide ExtName, Key, VariantMatch, Lower;
  }

  lemma OriginalKey(k: Keying, e: DirEntry, b: string)
    ensures IsOriginalOf(k, e, b) <==> IsOriginalOf(k, e, Key(k, e.name)) && b == Key(k, e.name)
  {
  }

  lemma OriginalsMemberStep(k: Keying, c: Catalog, e: DirEntry, b: string)
    ensures b in Classify(k, c, e).originals <==> b in c.originals || IsOriginalOf(k, e, b)
  {
    hide Classify, IsOriginalOf, ImageOf;
    OriginalsStep(k, c, e);
    OriginalKey(k, e, b);
  }

  /** An original is recorded under a base name exactly when a file of that
      base name is one. */
  lemma {:induction false} OriginalsRecorded(k: Keying, files: seq<DirEntry>, b: string)
    ensures b in CatalogOf(k, files).originals <==> exists i :: 0 <= i < |files| && IsOriginalOf(k, files[i], b)
    decreases |files|
  {
    hide Classify, IsOriginalOf, ImageOf, CatalogOf;
    if |files| > 0 {
      var init, e := files[..|files| - 1], files[|files| - 1];
      CatalogSnoc(k, files);
      OriginalsRecorded(k, init, b);
      OriginalsMemberStep(k, CatalogOf(k, init), e, b);
      if b in CatalogOf(k, files).originals {
        if b in CatalogOf(k, init).originals {
          var i :| 0 <= i < |init| && IsOriginalOf(k, init[i], b);
          assert files[i] == init[i];
        } else {
          assert IsOriginalOf(k, files[|files| - 1], b);
        }
      }
      if exists i :: 0 <= i < |files| && IsOriginalOf(k, files[i], b) {
        var i :| 0 <= i < |files| && IsOriginalOf(k, files[i], b);
        if i < |init| {
          assert IsOriginalOf(k, init[i], b);
        } else {
          assert IsOriginalOf(k, e, b);
        }
      }
    } else {
      CatalogEmpty(k, files);
    }
  }

  /** A later original replaces an earlier one: the recorded image is that of
      the last file that is an original of the base name. */
  lemma {:induction false} OriginalsLastWins(k: Keying, files: seq<DirEntry>, b: string)
    requires b in CatalogOf(k, files).originals
    ensures exists j :: (0 <= j < |files| && IsOriginalOf(k, files[j], b) &&
                         CatalogOf(k, files).originals[b] == ImageOf(files[j]) &&
                         (forall m :: j < m < |files| ==> !IsOriginalOf(k, files[m], b)))
    decreases |files|
  {
    hide Classify, IsOriginalOf, ImageOf, CatalogOf;
    if |files| == 0 {
      CatalogEmpty(k, files);
      assert false;
    }
    var init, e := files[..|files| - 1], files[|files| - 1];
    CatalogSnoc(k, files);
    OriginalsStep(k, CatalogOf(k, init), e);
    OriginalKey(k, e, b);
    if IsOriginalOf(k, e, b) {
      assert IsOriginalOf(k, files[|files| - 1], b);
    } else {
      OriginalsLastWins(k, init, b);
      var j :| 0 <= j < |init| && IsOriginalOf(k, init[j], b) && CatalogOf(k, init).originals[b] == ImageOf(init[j])
        && forall m :: j < m < |init| ==> !IsOriginalOf(k, init[m], b);
      LaterNotOriginal(k, files, init, b, j);
      assert files[j] == init[j];
    }
  }

  /** No original of `b` after position `j` among all but the last file, and
      the last file is none either: none after `j` at all. */
  lemma LaterNotOriginal(k: Keying, files: seq<DirEntry>, init: seq<DirEntry>, b: string, j: int)
    requires |files| > 0 && init == files[..|files| - 1] && 0 <= j < |init|
    requires forall m :: j < m < |init| ==> !IsOriginalOf(k, init[m], b)
    requires !IsOriginalOf(k, files[|files| - 1], b)
    ensures forall m :: j < m < |files| ==> !IsOriginalOf(k, files[m], b)
  {
    hide IsOriginalOf;
    forall m | j < m < |files|
      ensures !IsOriginalOf(k, files[m], b)
    {
      if m < |init| {
        assert files[m] == init[m];
      }
    }
  }

  lemma VariantsStep(k: Keying, c: Catalog, e: DirEntry, name: string)
    ensures name in Classify(k, c, e).variants <==> name in c.variants || IsVariantFileOf(k, e, name)
    ensures name in Classify(k, c, e).variants && !IsVariantFileOf(k, e, name) ==>
      Classify(k, c, e).variants[name] == c.variants[name]
    ensures IsVariantFileOf(k, e, name) ==>
      VariantMatch(Key(k, e.name)).Some? && VariantMatch(Key(k, e.name)).value.0 in VariantSizes
    ensures IsVariantFileOf(k, e, name) ==>
      Classify(k, c, e).variants[name].Keys ==
        (if name in c.variants then c.variants[name].Keys else {}) + {VariantMatch(Key(k, e.name)).value.0}
  {
    hide ExtName, Key, Lower, VariantMatch;
  }

  /** A name has responsive variants recorded exactly when some JPEG or PNG
      file is a variant of it, and what is recorded is a non-empty map from
      sizes among small, medium, large and xsmall. */
  lemma {:induction false} VariantsRecorded(k: Keying, files: seq<DirEntry>, name: string)
    ensures name in CatalogOf(k, files).variants <==> exists i :: 0 <= i < |files| && IsVariantFileOf(k, files[i], name)
    ensures name in CatalogOf(k, files).variants ==>
      CatalogOf(k, files).variants[name] != map[] && CatalogOf(k, files).variants[name].Keys <= VariantSizes
    decreases |files|
  {
    hide Classify, IsVariantFileOf, CatalogOf;
    if |files| > 0 {
      var init, e := files[..|files| - 1], files[|files| - 1];
      CatalogSnoc(k, files);
      VariantsRecorded(k, init, name);
      VariantsStep(k, CatalogOf(k, init), e, name);
      if name in CatalogOf(k, files).variants {
        if name in CatalogOf(k, init).variants {
          var i :| 0 <= i < |init| && IsVariantFileOf(k, init[i], name);
          assert files[i] == init[i];
        } else {
          assert IsVariantFileOf(k, files[|files| - 1], name);
        }
      }
      if exists i :: 0 <= i < |files| && IsVariantFileOf(k, files[i], name) {
        var i :| 0 <= i < |files| && IsVariantFileOf(k, files[i], name);
        if i < |init| {
          assert IsVariantFileOf(k, init[i], name);
        } else {
          assert IsVariantFileOf(k, e, name);
        }
      }
    } else {
      CatalogEmpty(k, files);
    }
  }

  // ---------------------------------------------------------------------
  // Issues and the exit code

  datatype Issue = MissingWebp | MissingAvif | MissingVariants | LargeFile

  /** `size / 1024 > MAX_SIZE_KB`, a division on numbers with fractions. */
  predicate IsLarge(size: nat) {
    (size as real) / 1024.0 > MaxSizeKb as real
  }

  /** A file is large exactly when it is over 512000 bytes. */
  lemma LargeBeyondBytes(size: nat)
    ensures IsLarge(size) <==> size > 512000
  {
    assert (size as real) / 1024.0 * 1024.0 == size as real;
  }

  /** An original with WebP and AVIF versions and responsive variants, of at
      most 500 KB. */
  predicate Optimised(c: Catalog, b: string)
    requires b in c.originals
  {
    b in c.webp && b in c.avif && b in c.variants && !IsLarge(c.originals[b].size)
  }

  /** The issues the audit lists for the original recorded under `b`. */
  function IssuesOf(c: Catalog, b: string): (issues: seq<Issue>)
    requires b in c.originals
    ensures issues == [] <==> Optimised(c, b)
    ensures MissingWebp in issues <==> b !in c.webp
    ensures MissingAvif in issues <==> b !in c.avif
    ensures MissingVariants in issues <==> b !in c.variants
    ensures LargeFile in issues <==> c.originals[b].size > 512000
  {
    LargeBeyondBytes(c.originals[b].size);
    (if b !in c.webp then [MissingWebp] else []) +
    (if b !in c.avif then [MissingAvif] else []) +
    (if b !in c.variants then [MissingVariants] else []) +
    (if IsLarge(c.originals[b].size) then [LargeFile] else [])
  }

  /** The originals listed with at least one issue. */
  function Flagged(c: Catalog): set<string> {
    set b | b in c.originals && !Optimised(c, b)
  }

  lemma NoneFlagged(c: Catalog)
    ensures Flagged(c) == {} <==> forall b :: b in c.originals ==> Optimised(c, b)
  {
    if Flagged(c) == {} {
      forall b | b in c.originals
        ensures Optimised(c, b)
      {
        assert b !in Flagged(c);
      }
    }
  }

  /** The flagged originals among `keys`. */
  ghost function FlaggedAmong(c: Catalog, keys: set<string>): set<string> {
    set b | b in keys && b in c.originals && !Optimised(c, b)
  }

  lemma FlaggedAmongEnds(c: Catalog)
    ensures FlaggedAmong(c, {}) == {}
    ensures FlaggedAmong(c, c.originals.Keys) == Flagged(c)
  {
  }

  lemma FlaggedAmongAdd(c: Catalog, keys: set<string>, b: string)
    requires b in c.originals && b !in keys
    ensures |FlaggedAmong(c, keys + {b})| == |FlaggedAmong(c, keys)| + (if Optimised(c, b) then 0 else 1)
  {
    if Optimised(c, b) {
      assert FlaggedAmong(c, keys + {b}) == FlaggedAmong(c, keys);
    } else {
      assert FlaggedAmong(c, keys + {b}) == FlaggedAmong(c, keys) + {b};
    }
  }

  /** The `Object.entries(originals).forEach` loop: counts the originals with
      issues. */
  method CountIssues(c: Catalog) returns (issuesFound: nat)
    ensures issuesFound == |Flagged(c)|
  {
    hide *;
    FlaggedAmongEnds(c);
    issuesFound := 0;
    var todo := c.originals.Keys;
    ghost var done: set<string> := {};
    while todo != {}
      invariant todo !! done && todo + done == c.originals.Keys
      invariant issuesFound == |FlaggedAmong(c, done)|
      decreases |todo|
    {
      var baseName :| baseName in todo;
      var issues := IssuesOf(c, baseName);
      FlaggedAmongAdd(c, done, baseName);
      if |issues| > 0 {
        issuesFound := issuesFound + 1;
      }
      todo := todo - {baseName};
      done := done + {baseName};
    }
  }

  /** The exit code of an audit whose scan keys files by `k`: 1 when the
      uploads folder is missing or some original is flagged. */
  function AuditExit(k: Keying, uploadsExist: bool, files: seq<DirEntry>): (code: int)
    ensures code == 0 || code == 1
  {
    if !uploadsExist || Flagged(CatalogOf(k, files)) != {} then 1 else 0
  }

  /** The audit passes exactly when the uploads folder exists and every
      original it records is optimised. */
  lemma AuditExitZero(k: Keying, uploadsExist: bool, files: seq<DirEntry>)
    ensures AuditExit(k, uploadsExist, files) == 0 <==>
      uploadsExist && forall b :: b in CatalogOf(k, files).originals ==> Optimised(CatalogOf(k, files), b)
  {
    hide CatalogOf;
    var c := CatalogOf(k, files);
    NoneFlagged(c);
    assert AuditExit(k, uploadsExist, files) == 0 <==> uploadsExist && Flagged(c) == {};
    assert Flagged(c) == {} <==> forall b :: b in c.originals ==> Optimised(c, b);
  }

  /** The whole audit as the script runs it: 1 when the uploads folder is
      missing or some original, keyed by the script's base name, has an
      issue; 0 when every such original is optimised. */
  method Audit(uploadsExist: bool, files: seq<DirEntry>) returns (exitCode: int)
    ensures exitCode == AuditExit(AsWritten, uploadsExist, files)
    ensures exitCode == 0 <==>
      uploadsExist && forall b :: b in CatalogOf(AsWritten, files).originals ==> Optimised(CatalogOf(AsWritten, files), b)
  {
    if !uploadsExist {
      return 1;
    }
    var c := Categorize(files);
    var issuesFound := CountIssues(c);
    if issuesFound > 0 {
      var b :| b in Flagged(c);
      assert b in c.originals && !Optimised(c, b);
    } else {
      assert Flagged(c) == {};
      forall b | b in c.originals
        ensures Optimised(c, b)
      {
        assert b !in Flagged(c);
      }
    }
    exitCode := if issuesFound > 0 then 1 else 0;
  }

  /** An original is left unflagged exactly when some file gives it a WebP
      version, some file an AVIF version, some JPEG or PNG a responsive
      variant, and the last file recorded for it is at most 512000 bytes. */
  lemma OptimisedFromFiles(k: Keying, files: seq<DirEntry>, b: string)
    requires b in CatalogOf(k, files).originals
    ensures Optimised(CatalogOf(k, files), b) <==>
      (exists i :: 0 <= i < |files| && IsVersionFile(k, files[i], ".webp", b)) &&
      (exists i :: 0 <= i < |files| && IsVersionFile(k, files[i], ".avif", b)) &&
      (exists i :: 0 <= i < |files| && IsVariantFileOf(k, files[i], b)) &&
      CatalogOf(k, files).originals[b].size <= 512000
  {
    hide CatalogOf;
    VersionsRecorded(k, files, ".webp", b);
    VersionsRecorded(k, files, ".avif", b);
    VariantsRecorded(k, files, b);
    LargeBeyondBytes(CatalogOf(k, files).originals[b].size);
  }

  // ---------------------------------------------------------------------
  // The optimiser's names and the audit's keys

  /** The name the image optimiser gives a WebP or AVIF version: a JPEG or
      PNG extension, in any case, replaced by `newExt`. */
  function OptimisedName(file: string, newExt: string): string {
    if Lower(ExtName(file)) in ImageExts then BaseName(file) + newExt else file
  }

  /** The extensions the optimiser writes are lower-case and have a single
      dot. */
  lemma VersionExt(newExt: string)
    requires newExt == ".webp" || newExt == ".avif"
    ensures |newExt| > 1 && newExt == "." + newExt[1..] && '.' !in newExt[1..]
    ensures Lower(newExt) == newExt && newExt !in ImageExts
  {
  }

  /** The base name of a stem followed by an optimiser's extension. */
  lemma VersionBaseName(stem: string, newExt: string)
    requires |stem| > 0 && (newExt == ".webp" || newExt == ".avif")
    ensures ExtName(stem + newExt) == newExt
    ensures BaseName(stem + newExt) == stem && BaseNameAsWritten(stem + newExt) == stem
  {
    hide Lower;
    VersionExt(newExt);
    ExtNameOf(stem, newExt[1..]);
    assert stem + "." + newExt[1..] == stem + newExt;
    assert (stem + newExt)[..|stem|] == stem;
  }

  /** With the intended base name, the versions the optimiser writes for an
      original are recorded under that original's key. */
  lemma OptimisedVersionFound(e: DirEntry, newExt: string, size: nat)
    requires newExt == ".webp" || newExt == ".avif"
    requires IsOriginalOf(Intended, e, BaseName(e.name))
    ensures IsVersionFile(Intended, DirEntry(OptimisedName(e.name, newExt), true, size), newExt, BaseName(e.name))
  {
    hide Lower, VariantMatch;
    var b := BaseName(e.name);
    assert OptimisedName(e.name, newExt) == b + newExt;
    VersionBaseName(b, newExt);
    VersionExt(newExt);
  }

  /** With the base name as written, an original whose extension has an
      upper-case letter is never matched to the versions the optimiser
      writes for it. */
  lemma OptimisedVersionMissedAsWritten(stem: string, suffix: string, newExt: string)
    requires |stem| > 0 && '.' !in suffix && Lower("." + suffix) in ImageExts && Lower(suffix) != suffix
    requires newExt == ".webp" || newExt == ".avif"
    ensures BaseNameAsWritten(OptimisedName(stem + "." + suffix, newExt)) == stem
    ensures BaseNameAsWritten(stem + "." + suffix) == stem + "." + suffix
  {
    UpperCaseExtensionKept(stem, suffix);
    ExtNameOf(stem, suffix);
    hide Lower;
    assert OptimisedName(stem + "." + suffix, newExt) == stem + newExt;
    VersionBaseName(stem, newExt);
  }

  lemma LowerJpg()
    ensures Lower("JPG") == "jpg" && Lower(".JPG") == ".jpg" && Lower(".jpg") == ".jpg"
  {
  }

  /** `Photo.JPG` keeps its extension in the script's key, while the WebP
      version the optimiser writes for it, `Photo.webp`, is keyed `Photo`. */
  lemma PhotoJpgMissed()
    ensures BaseNameAsWritten("Photo.JPG") == "Photo.JPG"
    ensures BaseNameAsWritten(OptimisedName("Photo.JPG", ".webp")) == "Photo"
  {
    hide Lower, BaseNameAsWritten, OptimisedName;
    LowerJpg();
    assert "Photo" + "." + "JPG" == "Photo.JPG" && "." + "JPG" == ".JPG";
    OptimisedVersionMissedAsWritten("Photo", "JPG", ".webp");
  }

  /** When no file has an upper-case letter in its extension, the two
      keyings agree, so the script's scan is the intended one. */
  lemma {:induction false} KeyingsAgree(files: seq<DirEntry>)
    requires forall i :: 0 <= i < |files| ==> Lower(ExtName(files[i].name)) == ExtName(files[i].name)
    ensures CatalogOf(AsWritten, files) == CatalogOf(Intended, files)
    decreases |files|
  {
    if |files| > 0 {
      var init, e := files[..|files| - 1], files[|files| - 1];
      KeyingsAgree(init);
      LowerCaseExtensionAgrees(e.name);
      CatalogSnoc(AsWritten, files);
      CatalogSnoc(Intended, files);
      hide Filed, Lower, ExtName, BaseName, BaseNameAsWritten;
      assert Key(AsWritten, e.name) == Key(Intended, e.name);
    }
  }

  // ---------------------------------------------------------------------
  // One upload folder, audited both ways

  /** `Photo.JPG`, the WebP and AVIF versions the optimiser writes for it,
      and its small responsive variant. */
  const PhotoListing: seq<DirEntry> := [DirEntry("Photo.JPG", true, 1000), DirEntry("Photo.webp", true, 400),
                                        DirEntry("Photo.avif", true, 300), DirEntry("small_Photo.jpg", true, 200)]

  lemma PhotoJpgNames()
    ensures Lower(ExtName("Photo.JPG")) == ".jpg"
    ensures Key(AsWritten, "Photo.JPG") == "Photo.JPG" && Key(Intended, "Photo.JPG") == "Photo"
  {
    hide Lower, ExtName, BaseNameAsWritten, BaseName, LastIndexOf, VariantMatch;
    LowerJpg();
    assert "Photo" + "." + "JPG" == "Photo.JPG" && "." + "JPG" == ".JPG";
    UpperCaseExtensionKept("Photo", "JPG");
    ExtNameOf("Photo", "JPG");
  }

  /** A base name whose first letter starts no size prefix is not a
      variant. */
  lemma NoVariantPrefix(base: string)
    requires |base| > 0 && base[0] != 's' && base[0] != 'm' && base[0] != 'l' && base[0] != 'x'
    ensures VariantMatch(base).None?
  {
    forall size | size in VariantSizes
      ensures !IsVariantOf(base, size)
    {
      VariantFirstLetter(base, size);
    }
  }

  lemma VariantFirstLetter(base: string, size: string)
    requires |size| > 0
    ensures IsVariantOf(base, size) ==> base[0] == size[0]
  {
    if IsVariantOf(base, size) {
      assert base[0] == base[..|size| + 1][0] == (size + "_")[0];
    }
  }

  lemma PhotoVariantNames()
    ensures VariantMatch("Photo.JPG").None? && VariantMatch("Photo").None?
    ensures VariantMatch("small_Photo") == Some(("small", "Photo"))
  {
    NoVariantPrefix("Photo.JPG");
    NoVariantPrefix("Photo");
    assert "small" + "_" + "Photo" == "small_Photo";
    VariantMatchOf("small", "Photo");
  }

  lemma PhotoVersionNames(newExt: string)
    requires newExt == ".webp" || newExt == ".avif"
    ensures Lower(ExtName("Photo" + newExt)) == newExt
    ensures Key(AsWritten, "Photo" + newExt) == "Photo" && Key(Intended, "Photo" + newExt) == "Photo"
  {
    VersionBaseName("Photo", newExt);
    VersionExt(newExt);
  }

  lemma SmallPhotoNames()
    ensures Lower(ExtName("small_Photo.jpg")) == ".jpg"
    ensures Key(AsWritten, "small_Photo.jpg") == "small_Photo" && Key(Intended, "small_Photo.jpg") == "small_Photo"
  {
    hide Lower, ExtName, BaseNameAsWritten, BaseName, LastIndexOf, VariantMatch;
    assert "small_Photo" + "." + "jpg" == "small_Photo.jpg" && "." + "jpg" == ".jpg";
    ExtNameOf("small_Photo", "jpg");
    LowerJpg();
    LowerCaseExtensionAgrees("small_Photo.jpg");
    assert "small_Photo" + ".jpg" == "small_Photo.jpg";
  }

  lemma PhotoJpgEntry(k: Keying, e: DirEntry)
    requires e == DirEntry("Photo.JPG", true, 1000)
    ensures IsOriginalOf(k, e, Key(k, "Photo.JPG"))
    ensures forall key :: !IsVersionFile(k, e, ".webp", key)
  {
    PhotoJpgNames();
    PhotoVariantNames();
    hide Lower, ExtName, Key, VariantMatch;
  }

  lemma PhotoVersionEntry(k: Keying, e: DirEntry, newExt: string)
    requires newExt == ".webp" || newExt == ".avif"
    requires e == DirEntry("Photo" + newExt, true, e.size)
    ensures forall b :: !IsOriginalOf(k, e, b)
    ensures forall key :: IsVersionFile(k, e, newExt, key) <==> key == "Photo"
    ensures forall key :: newExt == ".avif" ==> !IsVersionFile(k, e, ".webp", key)
  {
    PhotoVersionNames(newExt);
    PhotoVariantNames();
    VersionExt(newExt);
    hide Lower, ExtName, Key, VariantMatch;
  }

  lemma SmallPhotoEntry(k: Keying, e: DirEntry)
    requires e == DirEntry("small_Photo.jpg", true, 200)
    ensures forall b :: !IsOriginalOf(k, e, b)
    ensures forall key :: !IsVersionFile(k, e, ".webp", key)
    ensures IsVariantFileOf(k, e, "Photo")
  {
    SmallPhotoNames();
    PhotoVariantNames();
    hide Lower, ExtName, Key, VariantMatch;
  }

  /** What each file of the listing is, under either keying. */
  lemma PhotoListingEntries(k: Keying)
    ensures |PhotoListing| == 4
    ensures IsOriginalOf(k, PhotoListing[0], Key(k, "Photo.JPG"))
    ensures forall b :: !IsOriginalOf(k, PhotoListing[1], b) && !IsOriginalOf(k, PhotoListing[2], b) &&
                        !IsOriginalOf(k, PhotoListing[3], b)
    ensures forall key :: IsVersionFile(k, PhotoListing[1], ".webp", key) <==> key == "Photo"
    ensures forall key :: IsVersionFile(k, PhotoListing[2], ".avif", key) <==> key == "Photo"
    ensures forall key :: !IsVersionFile(k, PhotoListing[0], ".webp", key) && !IsVersionFile(k, PhotoListing[2], ".webp", key) &&
                          !IsVersionFile(k, PhotoListing[3], ".webp", key)
    ensures IsVariantFileOf(k, PhotoListing[3], "Photo")
  {
    hide IsOriginalOf, IsVersionFile, IsVariantFileOf;
    assert "Photo" + ".webp" == "Photo.webp" && "Photo" + ".avif" == "Photo.avif";
    PhotoJpgEntry(k, PhotoListing[0]);
    PhotoVersionEntry(k, PhotoListing[1], ".webp");
    PhotoVersionEntry(k, PhotoListing[2], ".avif");
    SmallPhotoEntry(k, PhotoListing[3]);
  }

  /** The script as written: `Photo.JPG` is recorded as an original under its
      own name, no WebP version is recorded under that name, and the audit
      exits with 1. */
  lemma PhotoListingFailsAsWritten()
    ensures "Photo.JPG" in CatalogOf(AsWritten, PhotoListing).originals
    ensures "Photo.JPG" !in CatalogOf(AsWritten, PhotoListing).webp
    ensures AuditExit(AsWritten, true, PhotoListing) == 1
  {
    var files := PhotoListing;
    PhotoListingEntries(AsWritten);
    PhotoJpgNames();
    hide CatalogOf, Lower, ExtName, VariantMatch, IsOriginalOf, IsVersionFile, IsVariantFileOf;
    assert IsOriginalOf(AsWritten, files[0], "Photo.JPG");
    OriginalsRecorded(AsWritten, files, "Photo.JPG");
    VersionsRecorded(AsWritten, files, ".webp", "Photo.JPG");
    assert forall i :: 0 <= i < |files| ==> !IsVersionFile(AsWritten, files[i], ".webp", "Photo.JPG");
    assert "Photo.JPG" in Flagged(CatalogOf(AsWritten, files));
  }

  /** The corrected scan: the same folder has one original, `Photo`, with
      every optimisation, and the audit exits with 0. */
  lemma PhotoListingPassesIntended()
    ensures CatalogOf(Intended, PhotoListing).originals.Keys == {"Photo"}
    ensures AuditExit(Intended, true, PhotoListing) == 0
  {
    var files := PhotoListing;
    PhotoListingEntries(Intended);
    PhotoJpgNames();
    hide CatalogOf, Lower, ExtName, VariantMatch, IsOriginalOf, IsVersionFile, IsVariantFileOf;
    var c := CatalogOf(Intended, files);
    forall b | b in c.originals
      ensures b == "Photo"
    {
      OriginalsRecorded(Intended, files, b);
      var i :| 0 <= i < |files| && IsOriginalOf(Intended, files[i], b);
      OriginalKey(Intended, files[i], b);
    }
    assert IsOriginalOf(Intended, files[0], "Photo");
    OriginalsRecorded(Intended, files, "Photo");
    assert IsVersionFile(Intended, files[1], ".webp", "Photo");
    VersionsRecorded(Intended, files, ".webp", "Photo");
    assert IsVersionFile(Intended, files[2], ".avif", "Photo");
    VersionsRecorded(Intended, files, ".avif", "Photo");
    assert IsVariantFileOf(Intended, files[3], "Photo");
    VariantsRecorded(Intended, files, "Photo");
    OriginalsLastWins(Intended, files, "Photo");
    LargeBeyondBytes(c.originals["Photo"].size);
    assert Optimised(c, "Photo");
    AuditExitZero(Intended, true, files);
  }
}
