/** The repository working tree the CMS hooks write into, and the git steps
    that ran against it. Paths are relative to the repository root. */
module Workspace {
  import opened Text
  import opened GitSync

  class Site {
    /** The text of every file under the content directories. */
    var files: map<string, string>
    /** Whether `public/uploads` exists. */
    var uploadsExist: bool
    /** `STRAPI_DISABLE_GIT_SYNC` is `'true'`. */
    var syncDisabled: bool
    /** The first step of a git command that fails in this environment, if
        any (a missing remote, a rejected push, ...). */
    var failingStep: Option<nat>
    /** Every git step that ran, in order. */
    var gitLog: seq<string>

    constructor(files: map<string, string>, uploadsExist: bool, syncEnv: Option<string>, failingStep: Option<nat>)
      ensures this.files == files && this.uploadsExist == uploadsExist
      ensures this.syncDisabled == SyncDisabled(syncEnv) && this.failingStep == failingStep
      ensures gitLog == []
    {
      this.files := files;
      this.uploadsExist := uploadsExist;
      this.syncDisabled := SyncDisabled(syncEnv);
      this.failingStep := failingStep;
      gitLog := [];
    }

    /** `fs.writeFileSync(path, text)`; the directory is created when missing. */
    method WriteFile(path: string, text: string)
      modifies this
      ensures files == old(files)[path := text]
      ensures gitLog == old(gitLog) && Env() == old(Env())
    {
      files := files[path := text];
    }

    /** `if (fs.existsSync(path)) fs.unlinkSync(path)`: removing a file that is
        not there does nothing. */
    method DeleteFile(path: string) returns (existed: bool)
      modifies this
      ensures existed <==> path in old(files)
      ensures files == old(files) - {path}
      ensures gitLog == old(gitLog) && Env() == old(Env())
    {
      existed := path in files;
      if existed {
        files := files - {path};
      }
    }

    /** `gitCommitAndPush`: unless sync is disabled, runs the chained
        add/commit/pull/push command; a failing step stops the chain, and the
        call completes either way without touching the files. */
    method GitCommitAndPush(filepath: string, message: string)
      modifies this
      ensures gitLog == old(gitLog) + GitRun(filepath, message)
      ensures files == old(files) && Env() == old(Env())
    {
      hide *;
      gitLog := gitLog + GitRun(filepath, message);
    }

    /** What the hooks cannot change: whether the uploads directory exists,
        whether sync is disabled, and which git step fails. */
    function Env(): (bool, bool, Option<nat>)
      reads this`uploadsExist, this`syncDisabled, this`failingStep
    {
      (uploadsExist, syncDisabled, failingStep)
    }

    /** The steps one `gitCommitAndPush` call runs in this environment. */
    function GitRun(filepath: string, message: string): (r: seq<string>)
      reads this`uploadsExist, this`syncDisabled, this`failingStep
      ensures syncDisabled ==> r == []
      ensures !syncDisabled ==> |r| >= 1 && r[0] == GitSteps(filepath, message, uploadsExist)[0]
      ensures !syncDisabled && (failingStep.None? || failingStep.value >= 4) ==> r == GitSteps(filepath, message, uploadsExist)
    {
      if syncDisabled then [] else Executed(GitSteps(filepath, message, uploadsExist), failingStep)
    }
  }

  /** `process.env.X || fallback`: an unset or empty variable gives the
      fallback. */
  function EnvOr(env: Option<string>, fallback: string): (dir: string)
    ensures env.Some? && env.value != "" ==> dir == env.value
    ensures env.None? || env.value == "" ==> dir == fallback
  {
    if env.Some? && env.value != "" then env.value else fallback
  }

  /** A record's `publishedAt` is set (JavaScript truthiness of a text). */
  predicate IsPublished(publishedAt: Option<string>) {
    publishedAt.Some? && publishedAt.value != ""
  }

  /** The files after a hook that writes `doc` at `path` when `publish` holds
      and removes `path` (if it is there) otherwise. */
  function WriteOrRemove(files: map<string, string>, path: string, doc: string, publish: bool): map<string, string> {
    if publish then files[path := doc] else files - {path}
  }

  /** Such a hook decides the one path and leaves every other file as it was. */
  lemma WriteOrRemoveEffect(files: map<string, string>, path: string, doc: string, publish: bool)
    ensures var r := WriteOrRemove(files, path, doc, publish);
      (publish ==> path in r && r[path] == doc) && (!publish ==> path !in r)
      && (forall p :: p != path ==> (p in r <==> p in files))
      && (forall p :: p != path && p in r ==> r[p] == files[p])
  {
  }

  /** Removing a path that is not there changes nothing. */
  lemma RemoveAbsent(files: map<string, string>, path: string, doc: string)
    requires path !in files
    ensures WriteOrRemove(files, path, doc, false) == files
  {
  }

  /** Running the same hook twice is the same as running it once. */
  lemma WriteOrRemoveIdempotent(files: map<string, string>, path: string, doc: string, publish: bool)
    ensures var once := WriteOrRemove(files, path, doc, publish);
      WriteOrRemove(once, path, doc, publish) == once
  {
  }

  /** A write followed by a removal of the same path gives back the files as
      they were, when the path was new. */
  lemma WriteThenRemove(files: map<string, string>, path: string, doc: string)
    requires path !in files
    ensures WriteOrRemove(WriteOrRemove(files, path, doc, true), path, doc, false) == files
  {
    assert files[path := doc] - {path} == files;
  }

  /** `path.join(dir, name)` for a directory without a trailing slash. */
  function PathJoin(dir: string, name: string): string {
    dir + "/" + name
  }

  /** Two names in the same directory are two paths. */
  lemma PathJoinInjective(dir: string, a: string, b: string)
    requires PathJoin(dir, a) == PathJoin(dir, b)
    ensures a == b
  {
    assert a == PathJoin(dir, a)[|dir| + 1..];
  }
}
