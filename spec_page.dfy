/** The specification page component: it drops the frontmatter of the fetched
    Markdown and gives every second- and third-level heading an anchor made
    by `generateSlug`. */
module SpecPage {
  import opened Text
  import opened Slugs

  // ---------------------------------------------------------------------
  // generateSlug

  /** `.replace(/[^a-z0-9 -]/g, "")`: keeps ASCII lower-case letters, digits,
      the space and the dash. */
  function KeepSlugChars(s: string): (r: string)
    ensures forall i :: 0 <= i < |r| ==> IsLowerAlnum(r[i]) || r[i] == ' ' || r[i] == '-'
  {
    if |s| == 0 then ""
    else if IsLowerAlnum(s[0]) || s[0] == ' ' || s[0] == '-' then [s[0]] + KeepSlugChars(s[1..])
    else KeepSlugChars(s[1..])
  }

  /** `.replace(/-+/g, "-")`, left to right; `inRun` says a dash was just
      written. */
  function SquashDashes(s: string, inRun: bool): (r: string)
    ensures forall i :: 0 <= i < |r| ==> r[i] in s
    decreases |s|
  {
    if |s| == 0 then ""
    else if s[0] != '-' then [s[0]] + SquashDashes(s[1..], false)
    else if inRun then SquashDashes(s[1..], true)
    else "-" + SquashDashes(s[1..], true)
  }

  /** `generateSlug`: trim, lower-case, drop everything but letters, digits,
      spaces and dashes, turn each run of spaces into a dash, then each run of
      dashes into one. */
  function GenerateSlug(heading: string): string {
    SquashDashes(DashSpaceRuns(KeepSlugChars(Lower(Trim(heading))), false), false)
  }

  /** The squashed text never has two dashes in a row, and after a dash it
      does not start with one. */
  lemma {:induction false} SquashNoDoubleDash(s: string, inRun: bool)
    ensures NoDoubleDash(SquashDashes(s, inRun))
    ensures inRun ==> SquashDashes(s, inRun) == [] || SquashDashes(s, inRun)[0] != '-'
    decreases |s|
  {
    if |s| > 0 {
      var r := SquashDashes(s, inRun);
      if s[0] != '-' {
        SquashNoDoubleDash(s[1..], false);
        var t := SquashDashes(s[1..], false);
        assert r == [s[0]] + t;
        forall i | 0 <= i < |r| - 1 ensures !(r[i] == '-' && r[i + 1] == '-') {
          if i > 0 {
            assert r[i] == t[i - 1] && r[i + 1] == t[i];
          }
        }
      } else if inRun {
        SquashNoDoubleDash(s[1..], true);
      } else {
        SquashNoDoubleDash(s[1..], true);
        var t := SquashDashes(s[1..], true);
        assert r == "-" + t;
        forall i | 0 <= i < |r| - 1 ensures !(r[i] == '-' && r[i + 1] == '-') {
          if i > 0 {
            assert r[i] == t[i - 1] && r[i + 1] == t[i];
          }
        }
      }
    }
  }

  /** Text without two dashes in a row is left as it is. */
  lemma {:induction false} SquashOfSquashed(s: string, inRun: bool)
    requires NoDoubleDash(s)
    requires inRun ==> s == [] || s[0] != '-'
    ensures SquashDashes(s, inRun) == s
    decreases |s|
  {
    if |s| > 0 {
      var rest := s[1..];
      assert NoDoubleDash(rest) by {
        forall i | 0 <= i < |rest| - 1 ensures !(rest[i] == '-' && rest[i + 1] == '-') {
          assert rest[i] == s[i + 1] && rest[i + 1] == s[i + 2];
        }
      }
      if s[0] == '-' {
        assert rest == [] || rest[0] != '-' by {
          if |rest| > 0 {
            assert rest[0] == s[1];
          }
        }
        SquashOfSquashed(rest, true);
      } else {
        SquashOfSquashed(rest, false);
      }
      assert s == [s[0]] + rest;
    }
  }

  /** A heading slug holds only `a`-`z`, `0`-`9` and single dashes. */
  lemma GenerateSlugCollapsed(heading: string)
    ensures Collapsed(GenerateSlug(heading))
  {
    var k := KeepSlugChars(Lower(Trim(heading)));
    var d := DashSpaceRuns(k, false);
    assert forall i :: 0 <= i < |d| ==> IsSlugChar(d[i]);
    var r := SquashDashes(d, false);
    assert forall i :: 0 <= i < |r| ==> IsSlugChar(r[i]);
    SquashNoDoubleDash(d, false);
  }

  /** A collapsed text is its own heading slug. */
  lemma GenerateSlugOfCollapsed(x: string)
    requires Collapsed(x)
    ensures GenerateSlug(x) == x
  {
    assert forall i :: 0 <= i < |x| ==> !IsSpace(x[i]) by {
      forall i | 0 <= i < |x| ensures !IsSpace(x[i]) {
        assert IsSlugChar(x[i]);
      }
    }
    TrimOfTrimmed(x);
    assert Lower(x) == x by {
      forall i | 0 <= i < |x| ensures LowerChar(x[i]) == x[i] {
        assert IsSlugChar(x[i]);
      }
    }
    KeepAll(x);
    DashSpaceRunsOfSpaceFree(x, false);
    SquashOfSquashed(x, false);
  }

  lemma {:induction false} KeepAll(x: string)
    requires forall i :: 0 <= i < |x| ==> IsSlugChar(x[i])
    ensures KeepSlugChars(x) == x
    decreases |x|
  {
    if |x| > 0 {
      assert IsSlugChar(x[0]);
      KeepAll(x[1..]);
      assert x == [x[0]] + x[1..];
    }
  }

  /** Slugging a slug changes nothing. */
  lemma GenerateSlugIdempotent(heading: string)
    ensures GenerateSlug(GenerateSlug(heading)) == GenerateSlug(heading)
  {
    GenerateSlugCollapsed(heading);
    GenerateSlugOfCollapsed(GenerateSlug(heading));
  }

  /** The letters and digits of a text, in order. */
  function Alnums(s: string): string {
    if |s| == 0 then "" else (if IsLowerAlnum(s[0]) then [s[0]] else "") + Alnums(s[1..])
  }

  lemma {:induction false} KeepAlnums(s: string)
    ensures Alnums(KeepSlugChars(s)) == Alnums(s)
    decreases |s|
  {
    if |s| > 0 {
      KeepAlnums(s[1..]);
      if IsLowerAlnum(s[0]) || s[0] == ' ' || s[0] == '-' {
        assert ([s[0]] + KeepSlugChars(s[1..]))[1..] == KeepSlugChars(s[1..]);
      }
    }
  }

  lemma {:induction false} DashAlnums(s: string, inRun: bool)
    ensures Alnums(DashSpaceRuns(s, inRun)) == Alnums(s)
    decreases |s|
  {
    if |s| > 0 {
      if !IsSpace(s[0]) {
        DashAlnums(s[1..], false);
        assert ([s[0]] + DashSpaceRuns(s[1..], false))[1..] == DashSpaceRuns(s[1..], false);
      } else {
        DashAlnums(s[1..], true);
        assert !IsLowerAlnum(s[0]);
        if !inRun {
          assert ("-" + DashSpaceRuns(s[1..], true))[1..] == DashSpaceRuns(s[1..], true);
        }
      }
    }
  }

  lemma {:induction false} SquashAlnums(s: string, inRun: bool)
    ensures Alnums(SquashDashes(s, inRun)) == Alnums(s)
    decreases |s|
  {
    if |s| > 0 {
      if s[0] != '-' {
        SquashAlnums(s[1..], false);
        assert ([s[0]] + SquashDashes(s[1..], false))[1..] == SquashDashes(s[1..], false);
      } else {
        SquashAlnums(s[1..], true);
        if !inRun {
          assert ("-" + SquashDashes(s[1..], true))[1..] == SquashDashes(s[1..], true);
        }
      }
    }
  }

  /** Only separators change: the slug has exactly the letters and digits of
      the trimmed, lower-cased heading, in the same order. */
  lemma GenerateSlugKeepsAlnums(heading: string)
    ensures Alnums(GenerateSlug(heading)) == Alnums(Lower(Trim(heading)))
  {
    var l := Lower(Trim(heading));
    KeepAlnums(l);
    DashAlnums(KeepSlugChars(l), false);
    SquashAlnums(DashSpaceRuns(KeepSlugChars(l), false), false);
  }

  // ---------------------------------------------------------------------
  // getApiData

  /** `s.indexOf(sub, from)`: the first index at or after `from` where `sub`
      occurs, or -1. */
  function IndexOfFrom(s: string, sub: string, from: nat): (k: int)
    requires |sub| > 0
    ensures k == -1 || (from <= k && OccursAt(s, sub, k))
    ensures k == -1 ==> forall j :: from <= j ==> !OccursAt(s, sub, j)
    ensures k >= 0 ==> forall j :: from <= j < k ==> !OccursAt(s, sub, j)
    decreases |s| - from
  {
    if from + |sub| > |s| then -1
    else if s[from..from + |sub|] == sub then from
    else IndexOfFrom(s, sub, from + 1)
  }

  /** `data.slice(data.indexOf("---", 1) + 3)`: the text after the first
      `---` that is not at the very start. */
  function SpecBody(data: string): (body: string)
    ensures |body| <= |data| && body == data[|data| - |body|..]
  {
    var start := IndexOfFrom(data, "---", 1) + 3;
    if start >= |data| then "" else data[start..]
  }

  /** With a delimiter after the first character, the body is what follows
      the first such delimiter; without one, the slice starts at index 2. */
  lemma SpecBodyAfterDelimiter(data: string)
    ensures forall k :: 1 <= k && OccursAt(data, "---", k) && (forall j :: 1 <= j < k ==> !OccursAt(data, "---", j)) ==>
      SpecBody(data) == data[k + 3..]
    ensures (forall j :: 1 <= j ==> !OccursAt(data, "---", j)) ==>
      SpecBody(data) == if |data| <= 2 then "" else data[2..]
  {
    var k0 := IndexOfFrom(data, "---", 1);
    forall k | 1 <= k && OccursAt(data, "---", k) && (forall j :: 1 <= j < k ==> !OccursAt(data, "---", j))
      ensures SpecBody(data) == data[k + 3..]
    {
      assert k0 != -1;
      assert !(k0 < k);
      assert !(k < k0);
    }
  }

  /** A page that opens with a frontmatter block whose lines end in a
      newline renders only what follows its closing delimiter. */
  lemma SpecBodyOfFrontmatter(fm: string, body: string)
    requires |fm| > 0 && fm[|fm| - 1] == '\n'
    requires forall j :: 1 <= j ==> !OccursAt("---" + fm, "---", j)
    ensures SpecBody("---" + fm + "---" + body) == body
  {
    var head := "---" + fm;
    var data := head + "---" + body;
    var k := |head|;
    assert data[k..k + 3] == "---";
    assert OccursAt(data, "---", k);
    forall j | 1 <= j < k ensures !OccursAt(data, "---", j) {
      if j + 3 <= k {
        assert data[j..j + 3] == head[j..j + 3];
        assert !OccursAt(head, "---", j);
      } else {
        assert data[k - 1] == '\n';
        assert data[j..j + 3][k - 1 - j] == '\n';
      }
    }
    SpecBodyAfterDelimiter(data);
    assert SpecBody(data) == data[k + 3..];
    assert data[k + 3..] == body;
  }
}
