/** The site's path and string helpers for its two languages. */
module I18nPaths {
  import opened Text
  import opened I18nUi

  // ---------------------------------------------------------------------
  // getLangFromUrl

  /** `getLangFromUrl`: the third `/`-separated segment of the pathname
      when it is a language of the interface tables, else the default
      language. */
  function LangFromPath(pathname: string): (lang: string)
    ensures lang in Languages()
    ensures lang != DefaultLang <==> |Split(pathname, '/')| >= 3 && Split(pathname, '/')[2] == "es"
  {
    var segs := Split(pathname, '/');
    if |segs| >= 3 && segs[2] in Languages() then segs[2] else DefaultLang
  }

  // ---------------------------------------------------------------------
  // useTranslations

  /** `t(key)` of `useTranslations(lang)`: the string of the language when it
      has one, else the English one; `None` stands for `undefined`. */
  function Translate(lang: string, key: string): Option<string>
    requires lang in Languages()
  {
    var own := Lookup(Strings(lang), key);
    if own.Some? then own else Lookup(EnStrings(), key)
  }

  /** `t` is defined exactly on the English keys, and on those it never falls
      back: every language answers with its own table. */
  lemma TranslateNeverFallsBack(lang: string, key: string)
    requires lang in Languages()
    ensures Translate(lang, key).Some? <==> key in Keys(EnStrings())
    ensures key in Keys(EnStrings()) ==> Translate(lang, key) == Lookup(Strings(lang), key)
  {
    UiKeysAgree();
    hide EnStrings, EsStrings;
    assert Strings(lang) == EnStrings() || Strings(lang) == EsStrings();
  }

  // ---------------------------------------------------------------------
  // useTranslatedPath

  /** `segs.splice(k, 0, x)`: `x` inserted before index `k`, or appended when
      the array is shorter. */
  function InsertAt(segs: seq<string>, k: nat, x: string): (r: seq<string>)
    ensures |r| == |segs| + 1
    ensures k <= |segs| ==> r[k] == x && r[..k] == segs[..k] && r[k + 1..] == segs[k..]
    ensures k > |segs| ==> r == segs + [x]
  {
    if k <= |segs| then segs[..k] + [x] + segs[k..] else segs + [x]
  }

  /** `translatePath(path, l)`. */
  function TranslatePath(path: string, l: string): (r: string)
    requires l in Languages()
  {
    if !Contains(path, "/developers") && l != DefaultLang then "/" + l + path
    else if l != DefaultLang then Join(InsertAt(Split(path, '/'), 2, l), "/")
    else path
  }

  /** The default language keeps the path; another language is prefixed to
      a path outside the developer portal and becomes the third segment of
      one inside it, the other segments staying in order. */
  lemma TranslatePathCases(path: string, l: string)
    requires l in Languages()
    ensures l == DefaultLang ==> TranslatePath(path, l) == path
    ensures l != DefaultLang && !Contains(path, "/developers") ==> TranslatePath(path, l) == "/" + l + path
    ensures l != DefaultLang && Contains(path, "/developers") ==>
      Split(TranslatePath(path, l), '/') == InsertAt(Split(path, '/'), 2, l)
      && |Split(path, '/')| >= 2 && Split(TranslatePath(path, l), '/')[2] == l
  {
    if l != DefaultLang && Contains(path, "/developers") {
      var k :| 0 <= k <= |path| - 11 && OccursAt(path, "/developers", k);
      assert path[k] == '/';
      assert '/' !in l;
      InsertedSplits(path, k, l);
    }
  }

  /** Inserting a slash-free segment at position 2 of a path that has a `/`
      gives a path that splits into the inserted segments. */
  lemma InsertedSplits(path: string, k: nat, l: string)
    requires k < |path| && path[k] == '/' && '/' !in l
    ensures |Split(path, '/')| >= 2
    ensures Split(Join(InsertAt(Split(path, '/'), 2, l), "/"), '/') == InsertAt(Split(path, '/'), 2, l)
  {
    var segs := Split(path, '/');
    SlashSplits(path, k);
    var ins := InsertAt(segs, 2, l);
    forall i | 0 <= i < |ins| ensures '/' !in ins[i] {
      if i != 2 {
        assert ins[i] in segs;
      }
    }
    hide *;
    assert "/" == ['/'];
    SplitJoin(ins, '/');
  }

  /** A string with a `/` splits into at least two segments. */
  lemma SlashSplits(s: string, k: nat)
    requires k < |s| && s[k] == '/'
    ensures |Split(s, '/')| >= 2
  {
    assert IndexOf(s, '/') >= 0;
  }

  // ---------------------------------------------------------------------
  // getEnglishPathFromUrl

  /** The segments other than `es`, in order. */
  function DropEs(segs: seq<string>): (r: seq<string>)
    ensures forall i :: 0 <= i < |r| ==> r[i] != "es"
    ensures forall x :: x in r ==> x in segs
    ensures |r| <= |segs|
  {
    if |segs| == 0 then []
    else (if segs[0] == "es" then [] else [segs[0]]) + DropEs(segs[1..])
  }

  /** `getEnglishPathFromUrl`: the pathname with every `es` segment removed. */
  function EnglishPath(pathname: string): string {
    Join(DropEs(Split(pathname, '/')), "/")
  }

  lemma {:induction false} DropEsOfFree(segs: seq<string>)
    requires forall i :: 0 <= i < |segs| ==> segs[i] != "es"
    ensures DropEs(segs) == segs
    decreases |segs|
  {
    if |segs| > 0 {
      DropEsOfFree(segs[1..]);
      assert segs == [segs[0]] + segs[1..];
    }
  }

  /** The English path is made of the other segments in order, so it has no
      `es` segment left. */
  lemma EnglishPathSegments(pathname: string)
    ensures var kept := DropEs(Split(pathname, '/'));
      (|kept| >= 1 ==> Split(EnglishPath(pathname), '/') == kept)
      && (|kept| == 0 ==> EnglishPath(pathname) == "")
      && forall i :: 0 <= i < |Split(EnglishPath(pathname), '/')| ==> Split(EnglishPath(pathname), '/')[i] != "es"
  {
    var kept := DropEs(Split(pathname, '/'));
    if |kept| >= 1 {
      var segs := Split(pathname, '/');
      forall i | 0 <= i < |kept| ensures '/' !in kept[i] {
        assert kept[i] in segs;
      }
      SplitJoin(kept, '/');
    } else {
      assert Split("", '/') == [""];
    }
  }

  /** Dropping the `es` segments twice is dropping them once. */
  lemma EnglishPathIdempotent(pathname: string)
    ensures EnglishPath(EnglishPath(pathname)) == EnglishPath(pathname)
  {
    var e := EnglishPath(pathname);
    EnglishPathSegments(pathname);
    DropEsOfFree(Split(e, '/'));
    JoinSplit(e, '/');
  }

  lemma {:induction false} DropEsAppend(a: seq<string>, b: seq<string>)
    ensures DropEs(a + b) == DropEs(a) + DropEs(b)
    decreases |a|
  {
    if |a| > 0 {
      DropEsAppend(a[1..], b);
      assert (a + b)[1..] == a[1..] + b;
    } else {
      assert a + b == b;
    }
  }

  /** Dropping the `es` segments undoes inserting one into a path that had
      none. */
  lemma DropInserted(segs: seq<string>)
    requires |segs| >= 2
    requires forall i :: 0 <= i < |segs| ==> segs[i] != "es"
    ensures DropEs(InsertAt(segs, 2, "es")) == segs
  {
    var head, tail := segs[..2], segs[2..];
    assert InsertAt(segs, 2, "es") == head + ["es"] + tail;
    assert DropEs(["es"]) == [];
    assert forall i :: 0 <= i < |head| ==> head[i] != "es";
    assert forall i :: 0 <= i < |tail| ==> tail[i] != "es";
    assert head + tail == segs;
    hide *;
    DropEsAppend(head + ["es"], tail);
    DropEsAppend(head, ["es"]);
    DropEsOfFree(head);
    DropEsOfFree(tail);
  }

  /** The segments of a rooted path with `/es` in front. */
  lemma PrefixedSegments(rest: string)
    ensures Split("/es" + ("/" + rest), '/') == [""] + (["es"] + Split(rest, '/'))
    ensures Split("/" + rest, '/') == [""] + Split(rest, '/')
  {
    assert "/" + rest == "" + "/" + rest;
    SplitAppend("", rest, '/');
    assert "/es" + ("/" + rest) == "" + "/" + ("es" + "/" + rest);
    SplitAppend("", "es" + "/" + rest, '/');
    SplitAppend("es", rest, '/');
  }

  /** Dropping the `es` segments undoes the `/es` prefix of a rooted path
      that had none. */
  lemma DropPrefixed(t: seq<string>)
    requires forall i :: 0 <= i < |t| ==> t[i] != "es"
    ensures DropEs([""] + (["es"] + t)) == [""] + t
  {
    var x := ["es"] + t;
    assert x[0] == "es" && x[1..] == t;
    assert DropEs(x) == DropEs(t);
    var y := [""] + x;
    assert y[0] == "" && y[1..] == x;
    assert DropEs(y) == [""] + DropEs(x);
    DropEsOfFree(t);
  }

  lemma EnglishOfTranslatedPortal(path: string)
    requires Contains(path, "/developers")
    requires forall i :: 0 <= i < |Split(path, '/')| ==> Split(path, '/')[i] != "es"
    ensures EnglishPath(TranslatePath(path, "es")) == path
  {
    var segs := Split(path, '/');
    TranslatePathCases(path, "es");
    DropInserted(segs);
    JoinSplit(path, '/');
    var r := TranslatePath(path, "es");
    hide TranslatePath, Split, DropEs, InsertAt;
    assert EnglishPath(r) == Join(DropEs(Split(r, '/')), "/");
  }

  lemma EnglishOfTranslatedPrefixed(rest: string)
    requires !Contains("/" + rest, "/developers")
    requires forall i :: 0 <= i < |Split("/" + rest, '/')| ==> Split("/" + rest, '/')[i] != "es"
    ensures EnglishPath(TranslatePath("/" + rest, "es")) == "/" + rest
  {
    var path := "/" + rest;
    assert TranslatePath(path, "es") == "/es" + path;
    PrefixedSegments(rest);
    var t := Split(rest, '/');
    assert forall i :: 0 <= i < |t| ==> t[i] == Split(path, '/')[i + 1];
    DropPrefixed(t);
    JoinSplit(path, '/');
    hide TranslatePath, Split, DropEs;
    assert EnglishPath("/es" + path) == Join(DropEs(Split("/es" + path, '/')), "/");
  }

  /** Translating a path into Spanish and taking its English path gives the
      path back, for a rooted path with no `es` segment of its own. */
  lemma EnglishOfTranslated(path: string)
    requires |path| > 0 && path[0] == '/'
    requires forall i :: 0 <= i < |Split(path, '/')| ==> Split(path, '/')[i] != "es"
    ensures EnglishPath(TranslatePath(path, "es")) == path
  {
    if Contains(path, "/developers") {
      EnglishOfTranslatedPortal(path);
    } else {
      assert path == "/" + path[1..];
      EnglishOfTranslatedPrefixed(path[1..]);
    }
  }

  /** The language read back from a translated portal path is Spanish. */
  lemma LangOfTranslated(path: string)
    requires Contains(path, "/developers")
    ensures LangFromPath(TranslatePath(path, "es")) == "es"
  {
    TranslatePathCases(path, "es");
  }

  /** An English path always reads as the default language. */
  lemma LangOfEnglish(pathname: string)
    ensures LangFromPath(EnglishPath(pathname)) == DefaultLang
  {
    EnglishPathSegments(pathname);
  }

  /** Translating into Spanish always changes a path. */
  lemma TranslateChanges(path: string)
    ensures TranslatePath(path, "es") != path
  {
    TranslatePathCases(path, "es");
    if Contains(path, "/developers") {
      assert |Split(TranslatePath(path, "es"), '/')| == |Split(path, '/')| + 1;
    } else {
      assert |TranslatePath(path, "es")| == |path| + 3;
    }
  }

  lemma DevelopersSegments()
    ensures Split("/developers", '/') == ["", "developers"]
  {
    assert Join(["", "developers"], "/") == "/developers";
    SplitJoin(["", "developers"], '/');
  }

  lemma TechBlogSegments()
    ensures Split("/developers/blog", '/') == ["", "developers", "blog"]
  {
    assert Join(["", "developers", "blog"], "/") == "/developers/blog";
    SplitJoin(["", "developers", "blog"], '/');
  }

  lemma DevelopersTranslates()
    ensures TranslatePath("/developers", "es") == "/developers/es"
  {
    DevelopersSegments();
    DevelopersJoined();
    DevelopersInPortal();
    TranslateUnderPortal("/developers", "es");
    hide *;
  }

  lemma DevelopersJoined()
    ensures InsertAt(["", "developers"], 2, "es") == ["", "developers", "es"]
    ensures Join(["", "developers", "es"], "/") == "/developers/es"
  {
  }

  lemma DevelopersInPortal()
    ensures Contains("/developers", "/developers")
  {
    assert OccursAt("/developers", "/developers", 0);
  }

  lemma TechBlogTranslates()
    ensures TranslatePath("/developers/blog", "es") == "/developers/es/blog"
  {
    TechBlogSegments();
    TechBlogJoined();
    TechBlogInPortal();
    TranslateUnderPortal("/developers/blog", "es");
    hide *;
  }

  lemma TechBlogJoined()
    ensures InsertAt(["", "developers", "blog"], 2, "es") == ["", "developers", "es", "blog"]
    ensures Join(["", "developers", "es", "blog"], "/") == "/developers/es/blog"
  {
  }

  lemma TechBlogInPortal()
    ensures Contains("/developers/blog", "/developers")
  {
    assert OccursAt("/developers/blog", "/developers", 0);
  }

  /** Inside the portal, a language other than the default is inserted as
      the third segment. */
  lemma TranslateUnderPortal(path: string, l: string)
    requires l in Languages() && l != DefaultLang && Contains(path, "/developers")
    ensures TranslatePath(path, l) == Join(InsertAt(Split(path, '/'), 2, l), "/")
  {
  }

  /** The Spanish links of the developer portal and its blog are the
      translated English links, while the forum link is listed as it is in
      both languages, which translating it would not give. */
  lemma NavigationLinksTranslate()
    ensures NavigationItems()["developers"].es == TranslatePath(NavigationItems()["developers"].en, "es")
    ensures NavigationItems()["tech-blog"].es == TranslatePath(NavigationItems()["tech-blog"].en, "es")
    ensures var forum := NavigationItems()["community-forum"];
      forum.es == forum.en && forum.es != TranslatePath(forum.en, "es")
  {
    PortalLinks();
    DevelopersTranslates();
    TechBlogTranslates();
    TranslateChanges(NavigationItems()["community-forum"].en);
    hide NavigationItems, TranslatePath;
  }
}
