/** The git synchronisation every CMS lifecycle hook calls after it changed a
    file: the file (and the uploads directory when it exists) is staged,
    committed with the given message, rebased on the remote and pushed, as one
    shell command whose steps are chained with `&&`. */
module GitSync {
  import opened Text

  /** Every `'` becomes `'\''`: close the quoted word, an escaped quote, open
      it again. */
  function EscapeForShell(s: string): (r: string)
    ensures '\'' !in s ==> r == s
    ensures |r| >= |s|
  {
    EscapeGrows(s);
    ReplaceChar(s, '\'', "'\\''")
  }

  lemma {:induction false} EscapeGrows(s: string)
    ensures |ReplaceChar(s, '\'', "'\\''")| >= |s|
    decreases |s|
  {
    if |s| > 0 {
      EscapeGrows(s[1..]);
    }
  }

  /** `'` + text + `'`: one single-quoted shell word. */
  function Quote(s: string): string {
    "'" + s + "'"
  }

  /** Characters that end an unquoted shell word or start an operator. */
  predicate IsShellSpecial(c: char) {
    IsSpace(c) || c == '&' || c == '|' || c == ';' || c == '<' || c == '>' || c == '(' || c == ')'
    || c == '$' || c == '`' || c == '"' || c == '*' || c == '?' || c == '#' || c == '~'
  }

  function Prepend(c: char, r: Option<string>): Option<string> {
    if r.Some? then Some([c] + r.value) else None
  }

  /** How a POSIX shell reads one word made of single-quoted parts,
      backslash-escaped characters and plain characters: `None` when the word
      is unterminated or contains an operator or white space outside quotes.
      Inside single quotes every character stands for itself. */
  function ShellRead(w: string, inQuote: bool): (r: Option<string>)
    decreases |w|
  {
    if |w| == 0 then (if inQuote then None else Some(""))
    else if inQuote then
      if w[0] == '\'' then ShellRead(w[1..], false) else Prepend(w[0], ShellRead(w[1..], true))
    else if w[0] == '\'' then ShellRead(w[1..], true)
    else if w[0] == '\\' then (if |w| >= 2 then Prepend(w[1], ShellRead(w[2..], false)) else None)
    else if IsShellSpecial(w[0]) then None
    else Prepend(w[0], ShellRead(w[1..], false))
  }

  function ShellWord(w: string): Option<string> {
    ShellRead(w, false)
  }

  /** Inside an open quote, the escaped text followed by the closing quote
      reads back as the text. */
  lemma {:induction false} EscapedReadsBack(s: string)
    ensures ShellRead(EscapeForShell(s) + "'", true) == Some(s)
    decreases |s|
  {
    if |s| == 0 {
      assert EscapeForShell(s) + "'" == "'";
      assert "'"[1..] == "";
    } else {
      var c, rest := s[0], s[1..];
      var x := EscapeForShell(rest) + "'";
      EscapedReadsBack(rest);
      EscapeCons(c, rest);
      assert s == [c] + rest;
      if c == '\'' {
        assert EscapeForShell(s) + "'" == "'\\''" + x;
        ReadEscapedQuote(x);
      } else {
        assert EscapeForShell(s) + "'" == [c] + x;
        ReadQuotedChar(c, x);
      }
    }
  }

  lemma EscapeCons(c: char, s: string)
    ensures EscapeForShell([c] + s) == (if c == '\'' then "'\\''" else [c]) + EscapeForShell(s)
  {
    assert ([c] + s)[1..] == s;
  }

  lemma ReadQuotedChar(c: char, x: string)
    requires c != '\''
    ensures ShellRead([c] + x, true) == Prepend(c, ShellRead(x, true))
  {
    assert ([c] + x)[1..] == x;
  }

  /** `'\''` inside a quoted word: close, an escaped quote, open again. */
  lemma ReadEscapedQuote(x: string)
    ensures ShellRead("'\\''" + x, true) == Prepend('\'', ShellRead(x, true))
  {
    var w := "'\\''" + x;
    var w1 := "\\''" + x;
    var w2 := "'" + x;
    assert w[0] == '\'' && w[1..] == w1;
    assert w1[0] == '\\' && w1[1] == '\'' && w1[2..] == w2;
    assert w2[0] == '\'' && w2[1..] == x;
    assert ShellRead(w2, false) == ShellRead(x, true);
    assert ShellRead(w1, false) == Prepend('\'', ShellRead(w2, false));
  }

  /** Whatever the text, quoting its escaped form gives one shell word that
      reads back as exactly the text: nothing in a path or commit message can
      end the word or start another command. */
  lemma QuotedWordReadsBack(s: string)
    ensures ShellWord(Quote(EscapeForShell(s))) == Some(s)
  {
    EscapedReadsBack(s);
    assert Quote(EscapeForShell(s))[1..] == EscapeForShell(s) + "'";
  }

  /** The repository-relative uploads directory. */
  const UploadsDir: string := "public/uploads"

  /** The escaped paths to stage: the file, then the uploads directory when it
      exists. */
  function AddPaths(filepath: string, uploadsExist: bool): (r: seq<string>)
    ensures |r| == if uploadsExist then 2 else 1
    ensures r[0] == EscapeForShell(filepath)
    ensures uploadsExist ==> r[1] == EscapeForShell(UploadsDir)
  {
    if uploadsExist then [EscapeForShell(filepath), EscapeForShell(UploadsDir)] else [EscapeForShell(filepath)]
  }

  function QuoteAll(ps: seq<string>): (r: seq<string>)
    ensures |r| == |ps| && forall i :: 0 <= i < |ps| ==> r[i] == Quote(ps[i])
  {
    seq(|ps|, i requires 0 <= i < |ps| => Quote(ps[i]))
  }

  /** The four steps of the chained command, in order. */
  function GitSteps(filepath: string, message: string, uploadsExist: bool): (r: seq<string>)
    ensures |r| == 4
    ensures r[0] == "git add " + Join(QuoteAll(AddPaths(filepath, uploadsExist)), " ")
    ensures r[1] == "git commit -m " + Quote(EscapeForShell(message))
    ensures r[2] == "git pull --rebase" && r[3] == "git push"
  {
    ["git add " + Join(QuoteAll(AddPaths(filepath, uploadsExist)), " "),
     "git commit -m " + Quote(EscapeForShell(message)),
     "git pull --rebase",
     "git push"]
  }

  /** The command line handed to the shell. */
  function GitCommand(filepath: string, message: string, uploadsExist: bool): string {
    Join(GitSteps(filepath, message, uploadsExist), " && ")
  }

  /** The staged words of the `git add` step read back as the file path and,
      when present, the uploads directory. */
  lemma AddArgumentsReadBack(filepath: string, uploadsExist: bool)
    ensures var words := QuoteAll(AddPaths(filepath, uploadsExist));
      ShellWord(words[0]) == Some(filepath)
      && (uploadsExist ==> ShellWord(words[1]) == Some(UploadsDir))
  {
    QuotedWordReadsBack(filepath);
    QuotedWordReadsBack(UploadsDir);
  }

  /** The steps a `&&` chain runs when the step at `failing` (if any) fails:
      every step up to and including the failing one, and none after it. */
  function Executed(steps: seq<string>, failing: Option<nat>): (r: seq<string>)
    ensures |r| <= |steps| && r == steps[..|r|]
    ensures failing.None? || failing.value >= |steps| ==> r == steps
    ensures failing.Some? && failing.value < |steps| ==> |r| == failing.value + 1
  {
    if failing.Some? && failing.value < |steps| then steps[..failing.value + 1] else steps
  }

  /** A failing step stops the chain: a later step runs only when no earlier
      step failed. */
  lemma LaterStepsNeedSuccess(steps: seq<string>, failing: Option<nat>, k: nat)
    requires k < |steps|
    ensures k < |Executed(steps, failing)| <==> failing.None? || k <= failing.value
  {
  }

  /** `process.env.STRAPI_DISABLE_GIT_SYNC === 'true'` */
  function SyncDisabled(env: Option<string>): (r: bool)
    ensures r <==> env == Some("true")
  {
    env.Some? && env.value == "true"
  }
}
