/** The double-quote escaping every frontmatter serialiser applies to a quoted
    value: one backslash goes in front of each `"` and nothing else changes. */
module Escapes {
  import opened Text

  /** `value.replace(/"/g, '\\"')` */
  function EscapeQuotes(s: string): string {
    ReplaceChar(s, '"', "\\\"")
  }

  /** Reads `\"` back as `"`, left to right; every other character is kept. */
  function UnescapeQuotes(t: string): string {
    if |t| == 0 then ""
    else if |t| >= 2 && t[0] == '\\' && t[1] == '"' then "\"" + UnescapeQuotes(t[2..])
    else [t[0]] + UnescapeQuotes(t[1..])
  }

  /** An escaped string never starts with a bare quote. */
  lemma {:induction false} EscapedHead(s: string)
    ensures EscapeQuotes(s) == "" || EscapeQuotes(s)[0] != '"'
  {
  }

  /** Escaping is undone by reading `\"` back as `"`: no information is lost. */
  lemma {:induction false} UnescapeEscape(s: string)
    ensures UnescapeQuotes(EscapeQuotes(s)) == s
    decreases |s|
  {
    if |s| > 0 {
      var rest := EscapeQuotes(s[1..]);
      assert EscapeQuotes(s) == (if s[0] == '"' then "\\\"" else [s[0]]) + rest;
      UnescapeEscape(s[1..]);
      if s[0] == '"' {
        assert ("\\\"" + rest)[2..] == rest;
      } else {
        EscapedHead(s[1..]);
        assert ([s[0]] + rest)[1..] == rest;
      }
    }
  }

  /** Every `"` of the output is preceded by a backslash, and the output is the
      input with exactly one character added per quote. */
  lemma {:induction false} EscapeLength(s: string)
    ensures |EscapeQuotes(s)| == |s| + multiset(s)['"']
    decreases |s|
  {
    if |s| > 0 {
      EscapeLength(s[1..]);
      assert s == [s[0]] + s[1..];
      assert multiset(s) == multiset([s[0]]) + multiset(s[1..]);
    }
  }

  /** A quote-free string is left as it is. */
  lemma EscapeQuoteFree(s: string)
    requires '"' !in s
    ensures EscapeQuotes(s) == s
  {
  }
}
