/** Tag links of the blog: a tag is lower-cased and every run of white space
    in it becomes one `-`; the link is that slug under the blog's tag path. */
module TagUrl {
  import opened Text

  /** The path every tag page lives under. */
  const TagPath: string := "/developers/blog/tag/"

  /** `getTagSlug` */
  function TagSlug(tag: string): string {
    DashSpaceRuns(Lower(tag), false)
  }

  /** `getTagUrl` */
  function TagUrlOf(tag: string): (url: string)
    ensures StartsWith(url, TagPath) && url[|TagPath|..] == TagSlug(tag)
  {
    var url := TagPath + DashSpaceRuns(Lower(tag), false);
    assert url[..|TagPath|] == TagPath;
    url
  }

  /** A tag slug holds no white space and no upper-case ASCII letter. */
  lemma TagSlugShape(tag: string)
    ensures forall i :: 0 <= i < |TagSlug(tag)| ==> !IsSpace(TagSlug(tag)[i]) && !('A' <= TagSlug(tag)[i] <= 'Z')
  {
    var r := TagSlug(tag);
    forall i | 0 <= i < |r| ensures !('A' <= r[i] <= 'Z') {
      if r[i] != '-' {
        var j :| 0 <= j < |tag| && Lower(tag)[j] == r[i];
      }
    }
  }

  /** A slug is its own slug, so slugging twice is slugging once, and the
      link of a slug is the link of the tag it came from. */
  lemma TagSlugIdempotent(tag: string)
    ensures TagSlug(TagSlug(tag)) == TagSlug(tag)
    ensures TagUrlOf(TagSlug(tag)) == TagUrlOf(tag)
  {
    var r := TagSlug(tag);
    TagSlugShape(tag);
    assert Lower(r) == r;
    DashSpaceRunsOfSpaceFree(r, false);
  }

  /** Two words separated by any run of white space become the two words,
      lower-cased, joined by a single dash. */
  lemma TagSlugOfTwoWords(w1: string, run: string, w2: string)
    requires |w1| > 0 && forall i :: 0 <= i < |w1| ==> !IsSpace(w1[i])
    requires |w2| > 0 && forall i :: 0 <= i < |w2| ==> !IsSpace(w2[i])
    requires |run| > 0 && forall i :: 0 <= i < |run| ==> IsSpace(run[i])
    ensures TagSlug(w1 + run + w2) == Lower(w1) + "-" + Lower(w2)
  {
    LowerAppend(w1 + run, w2);
    LowerAppend(w1, run);
    var l1, lr, l2 := Lower(w1), Lower(run), Lower(w2);
    assert forall i :: 0 <= i < |l1| ==> !IsSpace(l1[i]) by {
      forall i | 0 <= i < |l1| ensures !IsSpace(l1[i]) {
        assert l1[i] == LowerChar(w1[i]);
      }
    }
    assert forall i :: 0 <= i < |l2| ==> !IsSpace(l2[i]) by {
      forall i | 0 <= i < |l2| ensures !IsSpace(l2[i]) {
        assert l2[i] == LowerChar(w2[i]);
      }
    }
    assert lr == run by {
      forall i | 0 <= i < |run| ensures lr[i] == run[i] {
        assert IsSpace(run[i]);
      }
    }
    assert l1 + lr + l2 == l1 + (run + l2);
    DashSpaceRunsOfWord(l1, run + l2, false);
    DashSpaceRunsOfRun(run, l2, false);
    DashSpaceRunsOfSpaceFree(l2, true);
  }
}
