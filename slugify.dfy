/** The `slugify` of the grant-track and info-item lifecycles and of the
    press webhook: lower-case, trim, turn every run of characters other than
    `a`-`z` and `0`-`9` into one `-`, and drop the dashes left at either end.
    The lifecycles drop one dash at each end (`/(^-|-$)+/g`), the webhook every
    dash at each end (`/^-+|-+$/g`); after the collapse the two agree. */
module Slugs {
  import opened Text

  predicate IsSlugChar(c: char) { IsLowerAlnum(c) || c == '-' }

  /** No two dashes in a row. */
  predicate NoDoubleDash(s: string) {
    forall i :: 0 <= i < |s| - 1 ==> !(s[i] == '-' && s[i + 1] == '-')
  }

  /** Only slug characters, and no two dashes in a row. */
  predicate Collapsed(s: string) {
    (forall i :: 0 <= i < |s| ==> IsSlugChar(s[i])) && NoDoubleDash(s)
  }

  /** A finished slug: collapsed, and neither starting nor ending with `-`. */
  predicate IsSlug(s: string) {
    Collapsed(s) && (s == [] || (s[0] != '-' && s[|s| - 1] != '-'))
  }

  /** `.replace(/[^a-z0-9]+/g, '-')`, reading left to right; `inRun` says the
      previous character already started a replaced run. */
  function CollapseFrom(s: string, inRun: bool): (r: string)
    decreases |s|
  {
    if |s| == 0 then ""
    else if IsLowerAlnum(s[0]) then [s[0]] + CollapseFrom(s[1..], false)
    else if inRun then CollapseFrom(s[1..], true)
    else "-" + CollapseFrom(s[1..], true)
  }

  function Collapse(s: string): string {
    CollapseFrom(s, false)
  }

  /** The collapse leaves only slug characters and never two dashes in a row;
      inside a run it cannot start with a dash. */
  lemma {:induction false} CollapseShape(s: string, inRun: bool)
    ensures Collapsed(CollapseFrom(s, inRun))
    ensures inRun ==> CollapseFrom(s, inRun) == [] || CollapseFrom(s, inRun)[0] != '-'
    decreases |s|
  {
    if |s| > 0 {
      var rest := s[1..];
      if IsLowerAlnum(s[0]) {
        CollapseShape(rest, false);
        ConsCollapsed([s[0]], CollapseFrom(rest, false));
      } else if inRun {
        CollapseShape(rest, true);
      } else {
        CollapseShape(rest, true);
        ConsCollapsed("-", CollapseFrom(rest, true));
      }
    }
  }

  /** A slug character in front of a collapsed text keeps it collapsed, unless
      a dash meets a dash. */
  lemma ConsCollapsed(c: string, t: string)
    requires |c| == 1 && IsSlugChar(c[0]) && Collapsed(t)
    requires c[0] == '-' ==> t == [] || t[0] != '-'
    ensures Collapsed(c + t)
  {
    var s := c + t;
    forall i | 0 <= i < |s| - 1 ensures !(s[i] == '-' && s[i + 1] == '-') {
      if i > 0 {
        assert s[i] == t[i - 1] && s[i + 1] == t[i];
      }
    }
  }

  /** A text that is already collapsed is its own collapse. */
  lemma {:induction false} CollapseOfCollapsed(t: string, inRun: bool)
    requires Collapsed(t)
    requires inRun ==> t == [] || t[0] != '-'
    ensures CollapseFrom(t, inRun) == t
    decreases |t|
  {
    if |t| > 0 {
      var rest := t[1..];
      assert Collapsed(rest) by {
        forall i | 0 <= i < |rest| - 1 ensures !(rest[i] == '-' && rest[i + 1] == '-') {
          assert rest[i] == t[i + 1] && rest[i + 1] == t[i + 2];
        }
      }
      if IsLowerAlnum(t[0]) {
        CollapseOfCollapsed(rest, false);
      } else {
        assert t[0] == '-';
        assert rest == [] || rest[0] != '-' by {
          if |rest| > 0 {
            assert rest[0] == t[1];
          }
        }
        CollapseOfCollapsed(rest, true);
      }
      assert t == [t[0]] + rest;
    }
  }

  /** `.replace(/(^-|-$)+/g, '')`: one dash off the front, then one off the
      back of what is left. */
  function StripOneDash(s: string): string {
    DropTrailingDash(DropLeadingDash(s))
  }

  function DropLeadingDash(s: string): string {
    if |s| > 0 && s[0] == '-' then s[1..] else s
  }

  function DropTrailingDash(s: string): string {
    if |s| > 0 && s[|s| - 1] == '-' then s[..|s| - 1] else s
  }

  /** `.replace(/^-+|-+$/g, '')`: every dash off both ends. */
  function StripDashes(s: string): string {
    TrimDashesEnd(TrimDashesStart(s))
  }

  function TrimDashesStart(s: string): (r: string)
    ensures r == [] || r[0] != '-'
  {
    if |s| > 0 && s[0] == '-' then TrimDashesStart(s[1..]) else s
  }

  function TrimDashesEnd(s: string): (r: string)
    ensures r == [] || r[|r| - 1] != '-'
  {
    if |s| > 0 && s[|s| - 1] == '-' then TrimDashesEnd(s[..|s| - 1]) else s
  }

  /** The slugify of the grant-track and info-item lifecycles. */
  function Slugify(v: string): string {
    StripOneDash(Collapse(Trim(Lower(v))))
  }

  /** The slugify of the press webhook. */
  function SlugifyAll(v: string): string {
    StripDashes(Collapse(Trim(Lower(v))))
  }

  /** A slice of a collapsed text is collapsed. */
  lemma CollapsedSlice(s: string, i: nat, j: nat)
    requires Collapsed(s) && i <= j <= |s|
    ensures Collapsed(s[i..j])
  {
    var t := s[i..j];
    forall k | 0 <= k < |t| - 1 ensures !(t[k] == '-' && t[k + 1] == '-') {
      assert t[k] == s[i + k] && t[k + 1] == s[i + k + 1];
    }
  }

  /** Without two dashes in a row, at most one dash starts the text. */
  lemma TrimStartOnce(s: string)
    requires Collapsed(s)
    ensures TrimDashesStart(s) == DropLeadingDash(s)
  {
    if |s| > 1 && s[0] == '-' {
      assert s[1..][0] == s[1];
    }
  }

  /** Without two dashes in a row, at most one dash ends the text. */
  lemma TrimEndOnce(s: string)
    requires Collapsed(s)
    ensures TrimDashesEnd(s) == DropTrailingDash(s)
  {
    if |s| > 1 && s[|s| - 1] == '-' {
      var a := s[..|s| - 1];
      assert a[|a| - 1] == s[|s| - 2];
    }
  }

  /** Dropping the edge dashes of a collapsed text leaves a slug. */
  lemma DropDashesSlug(s: string)
    requires Collapsed(s)
    ensures IsSlug(StripOneDash(s))
  {
    var a := DropLeadingDash(s);
    CollapsedSlice(s, if |s| > 0 && s[0] == '-' then 1 else 0, |s|);
    assert a == [] || a[0] != '-' by {
      if |s| > 1 && s[0] == '-' {
        assert a[0] == s[1];
      }
    }
    var b := DropTrailingDash(a);
    CollapsedSlice(a, 0, if |a| > 0 && a[|a| - 1] == '-' then |a| - 1 else |a|);
    assert b == [] || b[0] != '-' by {
      if |b| > 0 {
        assert b[0] == a[0];
      }
    }
    assert b == [] || b[|b| - 1] != '-' by {
      if |a| > 1 && a[|a| - 1] == '-' {
        assert b[|b| - 1] == a[|a| - 2];
      }
    }
  }

  /** On a collapsed text, dropping one dash at each end drops them all, and
      what is left is a slug. */
  lemma StripCollapsed(s: string)
    requires Collapsed(s)
    ensures StripOneDash(s) == StripDashes(s)
    ensures IsSlug(StripOneDash(s))
  {
    TrimStartOnce(s);
    var a := DropLeadingDash(s);
    CollapsedSlice(s, if |s| > 0 && s[0] == '-' then 1 else 0, |s|);
    TrimEndOnce(a);
    DropDashesSlug(s);
  }

  /** Whatever the input, the result is a slug: only `a`-`z`, `0`-`9` and
      single inner dashes. */
  lemma SlugifyIsSlug(v: string)
    ensures IsSlug(Slugify(v))
  {
    CollapseShape(Trim(Lower(v)), false);
    StripCollapsed(Collapse(Trim(Lower(v))));
  }

  /** The webhook's slugify gives the same slug as the lifecycles'. */
  lemma SlugifiersAgree(v: string)
    ensures SlugifyAll(v) == Slugify(v)
  {
    CollapseShape(Trim(Lower(v)), false);
    StripCollapsed(Collapse(Trim(Lower(v))));
  }

  /** A slug slugifies to itself. */
  lemma SlugifyOfSlug(s: string)
    requires IsSlug(s)
    ensures Slugify(s) == s
  {
    assert Lower(s) == s by {
      forall i | 0 <= i < |s| ensures LowerChar(s[i]) == s[i] {
        assert IsSlugChar(s[i]);
      }
    }
    if |s| > 0 {
      assert IsSlugChar(s[0]) && IsSlugChar(s[|s| - 1]);
    }
    TrimOfTrimmed(s);
    CollapseOfCollapsed(s, false);
  }

  /** Slugifying twice is slugifying once. */
  lemma SlugifyIdempotent(v: string)
    ensures Slugify(Slugify(v)) == Slugify(v)
  {
    SlugifyIsSlug(v);
    SlugifyOfSlug(Slugify(v));
  }

  // ---------------------------------------------------------------------
  // File names of the grant tracks and info items

  /** `${slugify(v)}-${id}.mdx` */
  function SlugIdFilename(v: string, id: int): (name: string)
    ensures EndsWith(name, ".mdx")
  {
    var name := Slugify(v) + "-" + IntToString(id) + ".mdx";
    assert name[|name| - 4..] == ".mdx";
    name
  }

  /** The number after the last dash identifies the record: two records with
      different non-negative ids never share a file name, whatever their
      names. */
  lemma FilenameIdentifiesId(a: string, m: nat, b: string, n: nat)
    requires SlugIdFilename(a, m) == SlugIdFilename(b, n)
    ensures m == n
  {
    var da, db := NatToString(m), NatToString(n);
    var sa, sb := Slugify(a) + "-" + da, Slugify(b) + "-" + db;
    assert sa == SlugIdFilename(a, m)[..|sa|];
    assert sb == SlugIdFilename(b, n)[..|sb|];
    if |da| == |db| {
      assert da == sa[|sa| - |da|..];
      assert db == sb[|sb| - |db|..];
      DecimalOfNatToString(m);
      DecimalOfNatToString(n);
    } else if |da| < |db| {
      DashBeforeNumber(Slugify(a), da, Slugify(b), db);
    } else {
      DashBeforeNumber(Slugify(b), db, Slugify(a), da);
    }
  }

  /** A dash followed by a shorter number cannot spell the tail of a longer
      number. */
  lemma DashBeforeNumber(x: string, dx: string, y: string, dy: string)
    requires AllDigits(dy) && |dx| < |dy|
    ensures x + "-" + dx != y + "-" + dy
  {
    var sx, sy := x + "-" + dx, y + "-" + dy;
    if |sx| == |sy| {
      var j := |sx| - |dx| - 1;
      assert sx[j] == '-';
      assert sy[j] == dy[j - |y| - 1];
    }
  }

  /** Two records with the same id but names of different slugs get
      different file names. */
  lemma SameIdDistinctSlugs(a: string, b: string, id: int)
    requires Slugify(a) != Slugify(b)
    ensures SlugIdFilename(a, id) != SlugIdFilename(b, id)
  {
    hide Slugify;
    var tail := "-" + IntToString(id) + ".mdx";
    var na, nb := SlugIdFilename(a, id), SlugIdFilename(b, id);
    assert na == Slugify(a) + tail;
    assert nb == Slugify(b) + tail;
    assert na[..|na| - |tail|] == Slugify(a);
    assert nb[..|nb| - |tail|] == Slugify(b);
  }

  /** A slug is its own webhook slug, as it is its own lifecycle slug. */
  lemma SlugifyAllOfSlug(s: string)
    requires IsSlug(s)
    ensures SlugifyAll(s) == s
  {
    SlugifyOfSlug(s);
    SlugifiersAgree(s);
  }

  /** `press-item`, the webhook's fallback, is a slug. */
  lemma PressItemIsSlug()
    ensures IsSlug("press-item")
  {
    var s := "press-item";
    assert forall i :: 0 <= i < |s| ==> IsSlugChar(s[i]);
    assert NoDoubleDash(s) by {
      forall i | 0 <= i < |s| - 1 ensures !(s[i] == '-' && s[i + 1] == '-') {
      }
    }
  }

  /** A name with no ASCII letter or digit, such as `!!!`, has an empty slug
      under either slugify. */
  lemma NoAlnumEmptySlug(v: string)
    requires forall i :: 0 <= i < |v| ==> !IsLowerAlnum(LowerChar(v[i]))
    ensures SlugifyAll(v) == "" && Slugify(v) == ""
  {
    var l := Lower(v);
    var s := TrimStart(l);
    var t := TrimEnd(s);
    assert Trim(l) == t;
    assert SlugifyAll(v) == StripDashes(Collapse(t)) && Slugify(v) == StripOneDash(Collapse(t));
    hide Slugify, SlugifyAll, Trim;
    forall i | 0 <= i < |t| ensures !IsLowerAlnum(t[i]) {
      assert t[i] == s[i] == l[|l| - |s| + i];
    }
    if |t| > 0 {
      PunctuationSlug(t);
      assert StripOneDash("-") == "";
    }
  }

  /** A non-empty text with no letter or digit collapses to one dash, which
      is then stripped. */
  lemma PunctuationSlug(s: string)
    requires |s| > 0 && forall i :: 0 <= i < |s| ==> !IsLowerAlnum(s[i])
    ensures Collapse(s) == "-" && StripDashes(Collapse(s)) == ""
  {
    PunctuationRun(s[1..]);
    assert Collapse(s) == "-";
    assert TrimDashesStart("-") == "";
  }

  lemma {:induction false} PunctuationRun(s: string)
    requires forall i :: 0 <= i < |s| ==> !IsLowerAlnum(s[i])
    ensures CollapseFrom(s, true) == ""
    decreases |s|
  {
    if |s| > 0 {
      assert !IsLowerAlnum(s[0]);
      PunctuationRun(s[1..]);
    }
  }
}
