/** The frontmatter block both importers recognise with
    `/^---\n([\s\S]*?)\n---\n([\s\S]*)$/`: an opening `---` line, then the
    shortest text that is followed by a `\n---\n` delimiter, then the rest.
    Also the "first colon" split of one frontmatter line, which both parsers
    use to decide whether a line contributes a key. */
module FrontmatterBlock {
  import opened Text

  datatype Block = Block(frontmatter: string, body: string)

  const Opening: string := "---\n"
  const Closing: string := "\n---\n"

  /** The closing delimiter `\n---\n` starts at index `k` of `text`. */
  predicate DelimAt(text: string, k: int) {
    0 <= k && k + 5 <= |text| && text[k..k + 5] == Closing
  }

  /** The first index at or after `k` where the closing delimiter starts, or -1. */
  function FindDelim(text: string, k: nat): (r: int)
    ensures r == -1 ==> forall j :: k <= j ==> !DelimAt(text, j)
    ensures r != -1 ==> k <= r && DelimAt(text, r)
    ensures r != -1 ==> forall j :: k <= j < r ==> !DelimAt(text, j)
    decreases |text| - k
  {
    if k + 5 > |text| then -1
    else if DelimAt(text, k) then k
    else FindDelim(text, k + 1)
  }

  /** The regular-expression match: `None` when the text has no leading
      `---\n` or no later `\n---\n`; the lazy group ends at the first delimiter
      that starts at index 4 or later. */
  function MatchBlock(text: string): (r: Option<Block>)
    ensures r.Some? <==> StartsWith(text, Opening) && exists k :: 4 <= k && DelimAt(text, k)
    ensures r.Some? ==> text == Opening + r.value.frontmatter + Closing + r.value.body
    ensures r.Some? ==> forall j :: 4 <= j < 4 + |r.value.frontmatter| ==> !DelimAt(text, j)
  {
    if !StartsWith(text, Opening) then None
    else
      var k := FindDelim(text, 4);
      if k == -1 then None
      else
        assert text == text[..4] + text[4..k] + text[k..k + 5] + text[k + 5..];
        Some(Block(text[4..k], text[k + 5..]))
  }

  /** Lines a serialiser may safely put between the delimiters: no line break
      inside a line and no line that starts with `-`. */
  predicate SafeLines(lines: seq<string>) {
    forall i :: 0 <= i < |lines| ==> '\n' !in lines[i] && (lines[i] == [] || lines[i][0] != '-')
  }

  /** After every line break of the text, the next character is not `-`. */
  predicate NoDashAfterBreak(t: string) {
    forall p :: 0 <= p < |t| - 1 && t[p] == '\n' ==> t[p + 1] != '-'
  }

  lemma {:induction false} JoinHead(lines: seq<string>)
    requires |lines| >= 1 && SafeLines(lines)
    ensures var t := Join(lines, "\n"); t == [] || t[0] != '-'
  {
    if |lines| > 1 {
      assert Join(lines, "\n") == lines[0] + "\n" + Join(lines[1..], "\n");
    }
  }

  lemma {:induction false} JoinNoDashAfterBreak(lines: seq<string>)
    requires |lines| >= 1 && SafeLines(lines)
    ensures NoDashAfterBreak(Join(lines, "\n"))
    decreases |lines|
  {
    if |lines| > 1 {
      var l := lines[0];
      var rest := Join(lines[1..], "\n");
      var t := Join(lines, "\n");
      assert t == l + "\n" + rest;
      assert SafeLines(lines[1..]) by {
        forall i | 0 <= i < |lines[1..]| ensures '\n' !in lines[1..][i] && (lines[1..][i] == [] || lines[1..][i][0] != '-') {
          assert lines[1..][i] == lines[i + 1];
        }
      }
      JoinNoDashAfterBreak(lines[1..]);
      JoinHead(lines[1..]);
      forall p | 0 <= p < |t| - 1 && t[p] == '\n' ensures t[p + 1] != '-' {
        if p > |l| {
          assert t[p] == rest[p - |l| - 1] && t[p + 1] == rest[p - |l|];
        }
      }
    }
  }

  /** A document laid out as opening delimiter, safe lines, closing delimiter
      and any body is matched with exactly those lines as the frontmatter and
      that body as the rest: the lazy match cannot stop early. */
  lemma DocumentMatches(lines: seq<string>, body: string)
    requires |lines| >= 1 && SafeLines(lines)
    ensures MatchBlock(Opening + Join(lines, "\n") + Closing + body) == Some(Block(Join(lines, "\n"), body))
  {
    var fm := Join(lines, "\n");
    JoinNoDashAfterBreak(lines);
    hide Join;
    var text := Opening + fm + Closing + body;
    ConcatSlices(Opening, fm, Closing, body);
    NoEarlyDelim(fm, body);
    MatchAt(text, 4 + |fm|);
  }

  /** The four parts of a concatenation are its slices. */
  lemma ConcatSlices(a: string, b: string, c: string, d: string)
    ensures var t := a + b + c + d;
      && t[..|a|] == a && t[|a|..|a| + |b|] == b
      && t[|a| + |b|..|a| + |b| + |c|] == c && t[|a| + |b| + |c|..] == d
  {
  }

  /** The match ends at the first delimiter after the opening line. */
  lemma MatchAt(text: string, m: int)
    requires StartsWith(text, Opening) && 4 <= m && DelimAt(text, m)
    requires forall j :: 4 <= j < m ==> !DelimAt(text, j)
    ensures MatchBlock(text) == Some(Block(text[4..m], text[m + 5..]))
  {
    var k := FindDelim(text, 4);
    assert k == m;
  }

  /** Inside a frontmatter text where no line break is followed by `-`, no
      closing delimiter can start. */
  lemma NoEarlyDelim(fm: string, body: string)
    requires NoDashAfterBreak(fm)
    ensures forall j :: 4 <= j < 4 + |fm| ==> !DelimAt(Opening + fm + Closing + body, j)
  {
    var text := Opening + fm + Closing + body;
    forall j | 4 <= j < 4 + |fm| ensures !DelimAt(text, j) {
      if DelimAt(text, j) {
        DelimChars(text, j);
      }
    }
  }

  lemma DelimChars(text: string, j: int)
    requires DelimAt(text, j)
    ensures text[j] == '\n' && text[j + 1] == '-'
  {
    assert text[j..j + 5][0] == text[j] && text[j..j + 5][1] == text[j + 1];
  }

  /** The line split both parsers apply: a line contributes only when its first
      colon has at least one character before it; the key is the trimmed text
      before that colon and the value the trimmed text after it. */
  function KeyValue(line: string): (r: Option<(string, string)>)
    ensures r.Some? <==> IndexOf(line, ':') > 0
  {
    var k := IndexOf(line, ':');
    if k > 0 then Some((Trim(line[..k]), Trim(line[k + 1..]))) else None
  }

  /** A line written as `key: value` by a serialiser, with a colon-free key that
      has no surrounding white space and a value without surrounding white
      space, reads back as that key and value. */
  lemma KeyValueOfField(key: string, value: string)
    requires |key| > 0 && ':' !in key
    requires !IsSpace(key[0]) && !IsSpace(key[|key| - 1])
    requires value == [] || (!IsSpace(value[0]) && !IsSpace(value[|value| - 1]))
    ensures KeyValue(key + ": " + value) == Some((key, value))
  {
    var line := key + ": " + value;
    assert line[..|key|] == key;
    assert line[|key|] == ':';
    assert IndexOf(line, ':') == |key| by {
      assert ':' !in line[..|key|];
    }
    assert line[|key| + 1..] == " " + value;
    TrimOfTrimmed(key);
    TrimOfTrimmed(value);
    assert TrimStart(" " + value) == TrimStart(value) by {
      assert (" " + value)[1..] == value;
    }
    assert TrimStart(value) == value;
  }

  /** The same for a line indented by two spaces, as nested entries are. */
  lemma KeyValueOfNestedField(key: string, value: string)
    requires |key| > 0 && ':' !in key
    requires !IsSpace(key[0]) && !IsSpace(key[|key| - 1])
    requires value == [] || (!IsSpace(value[0]) && !IsSpace(value[|value| - 1]))
    ensures KeyValue("  " + key + ": " + value) == Some((key, value))
  {
    var line := "  " + key + ": " + value;
    var pk := "  " + key;
    assert line == pk + ": " + value;
    assert line[..|pk|] == pk;
    assert line[|pk|] == ':';
    assert IndexOf(line, ':') == |pk| by {
      assert ':' !in line[..|pk|];
    }
    assert line[|pk| + 1..] == " " + value;
    assert TrimStart(pk) == key by {
      assert pk[1..] == " " + key;
      assert (" " + key)[1..] == key;
    }
    TrimOfTrimmed(key);
    TrimOfTrimmed(value);
    assert TrimStart(" " + value) == TrimStart(value) by {
      assert (" " + value)[1..] == value;
    }
  }

  /** `line` gives `key` a value under the line reader `f`. */
  predicate DefinesBy<V>(f: string -> Option<(string, V)>, line: string, key: string) {
    f(line).Some? && f(line).value.0 == key
  }

  /** The object a parser builds by reading the lines in order with `f` and
      assigning each key it yields; a later line overwrites an earlier one. */
  function FoldFields<V>(f: string -> Option<(string, V)>, lines: seq<string>): map<string, V>
  {
    if |lines| == 0 then map[]
    else
      var m := FoldFields(f, lines[..|lines| - 1]);
      var e := f(lines[|lines| - 1]);
      if e.Some? then m[e.value.0 := e.value.1] else m
  }

  lemma FoldFieldsSnoc<V>(f: string -> Option<(string, V)>, lines: seq<string>, i: int)
    requires 0 <= i < |lines|
    ensures var e := f(lines[i]);
      FoldFields(f, lines[..i + 1]) == if e.Some? then FoldFields(f, lines[..i])[e.value.0 := e.value.1] else FoldFields(f, lines[..i])
  {
    assert lines[..i + 1][..i] == lines[..i];
  }

  /** A key is present exactly when some line defines it. */
  lemma {:induction false} FoldFieldsKeys<V>(f: string -> Option<(string, V)>, lines: seq<string>, key: string)
    ensures key in FoldFields(f, lines) <==> exists i :: 0 <= i < |lines| && DefinesBy(f, lines[i], key)
    decreases |lines|
  {
    if |lines| > 0 {
      var init := lines[..|lines| - 1];
      var last := lines[|lines| - 1];
      FoldFieldsKeys(f, init, key);
      if key in FoldFields(f, lines) {
        if key in FoldFields(f, init) {
          var i :| 0 <= i < |init| && DefinesBy(f, init[i], key);
          assert lines[i] == init[i];
        } else {
          assert DefinesBy(f, lines[|lines| - 1], key);
        }
      } else {
        forall i | 0 <= i < |lines| ensures !DefinesBy(f, lines[i], key) {
          if i < |init| {
            assert init[i] == lines[i];
          }
        }
      }
    }
  }

  /** The value kept for a key is the one from the last line defining it. */
  lemma {:induction false} FoldFieldsLast<V>(f: string -> Option<(string, V)>, lines: seq<string>, key: string, i: int)
    requires 0 <= i < |lines| && DefinesBy(f, lines[i], key)
    requires forall j :: i < j < |lines| ==> !DefinesBy(f, lines[j], key)
    ensures key in FoldFields(f, lines) && FoldFields(f, lines)[key] == f(lines[i]).value.1
    decreases |lines|
  {
    if i < |lines| - 1 {
      var init := lines[..|lines| - 1];
      assert init[i] == lines[i];
      forall j | i < j < |init| ensures !DefinesBy(f, init[j], key) {
        assert init[j] == lines[j];
      }
      FoldFieldsLast(f, init, key, i);
    }
  }

  /** Reading the lines of `a` and then those of `b`: the keys `b` assigns
      override those of `a`. */
  lemma {:induction false} FoldFieldsAppend<V>(f: string -> Option<(string, V)>, a: seq<string>, b: seq<string>)
    ensures FoldFields(f, a + b) == FoldFields(f, a) + FoldFields(f, b)
    decreases |b|
  {
    if |b| == 0 {
      assert a + b == a;
    } else {
      var b0 := b[..|b| - 1];
      assert (a + b)[..|a + b| - 1] == a + b0;
      assert (a + b)[|a + b| - 1] == b[|b| - 1];
      FoldFieldsAppend(f, a, b0);
      var e := f(b[|b| - 1]);
      if e.Some? {
        assert FoldFields(f, a) + FoldFields(f, b0)[e.value.0 := e.value.1]
          == (FoldFields(f, a) + FoldFields(f, b0))[e.value.0 := e.value.1];
      }
    }
  }

  /** A line that yields `k` and `v` on its own gives the object `{ k: v }`. */
  lemma FoldFieldsSingle<V>(f: string -> Option<(string, V)>, line: string)
    ensures f(line).None? ==> FoldFields(f, [line]) == map[]
    ensures f(line).Some? ==> FoldFields(f, [line]) == map[f(line).value.0 := f(line).value.1]
  {
    assert [line][..0] == [];
  }

  /** A bare `key:` line: the value is empty. */
  lemma KeyValueOfBareKey(key: string)
    requires |key| > 0 && ':' !in key
    requires !IsSpace(key[0]) && !IsSpace(key[|key| - 1])
    ensures KeyValue(key + ":") == Some((key, ""))
  {
    var line := key + ":";
    assert line[..|key|] == key;
    assert IndexOf(line, ':') == |key| by {
      assert line[|key|] == ':';
      assert ':' !in line[..|key|];
    }
    assert line[|key| + 1..] == "";
    TrimOfTrimmed(key);
  }
}
