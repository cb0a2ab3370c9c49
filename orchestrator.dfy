/**
 * The caller of the hooks: a release attempt creates a fresh context and runs
 * analyzeCommits, generateNotes, prepare and publish in that order, stopping
 * at the first hook that rejects. Then three concrete release attempts.
 */
module Orchestrator {
  import opened Wrappers
  import opened Text
  import opened Environment
  import opened VersionReader

  /** What the attempt resolves with: the release type and the release notes. */
  datatype Summary = Summary(kind: ReleaseType, notes: string)

  /** The declared version's tag resolves: the attempt is a duplicate. */
  ghost predicate Tagged(config: Config, files: map<string, string>, git: Git)
    reads git
  {
    DeclaredVersion(config, files).Some? && git.RevParse(TagName(DeclaredVersion(config, files).value)).Success?
  }

  /** The version file exists and the lookup of its tag fails, for whatever reason. */
  ghost predicate Untagged(config: Config, files: map<string, string>, git: Git)
    reads git
  {
    DeclaredVersion(config, files).Some? && git.RevParse(TagName(DeclaredVersion(config, files).value)).Failure?
  }

  /** The entry generateNotes builds when the release proceeds and the last commit is readable. */
  ghost function PendingEntry(config: Config, files: map<string, string>, git: Git): Option<string>
    reads git
  {
    if Untagged(config, files, git) && git.LastMessage().Success?
    then Some(Entry(DeclaredVersion(config, files).value, git.LastMessage().value))
    else None
  }

  /** What generateNotes does with the changelog for the pending entry. */
  ghost function PendingAppend(config: Config, files: map<string, string>, git: Git): Append
    reads git
    requires PendingEntry(config, files, git).Some?
  {
    AppendEntry(ChangelogBase(files), PendingEntry(config, files, git).value)
  }

  method RunHooks(config: Config, fs: FileSystem, git: Git)
    returns (r: Result<Summary, Error>, ctx: Context)
    modifies fs, git
    ensures fresh(ctx)
    ensures git.refs == old(git.refs) && git.failing == old(git.failing)
    ensures r.Success? ==> (ctx.nextRelease.Some? <==> !ctx.skipRelease)
    // The version file is missing: the attempt rejects before any change.
    ensures DeclaredVersion(config, old(fs.files)) == None ==>
      r == Failure(ReadFailure(VersionFile(config)))
    ensures DeclaredVersion(config, old(fs.files)) == None ==> unchanged(fs, git)
    // The tag exists: nothing is released, written or committed.
    ensures old(Tagged(config, fs.files, git)) ==> r == Success(Summary(NoRelease, ""))
    ensures old(Tagged(config, fs.files, git)) ==> ctx.skipRelease
    ensures old(Tagged(config, fs.files, git)) ==> unchanged(fs, git)
    // The tag lookup fails: the release proceeds with the declared version.
    ensures old(Untagged(config, fs.files, git)) ==>
      !ctx.skipRelease && ctx.nextRelease == Some(Release(DeclaredVersion(config, old(fs.files)).value, ""))
    ensures old(Untagged(config, fs.files, git) && git.LastMessage().Failure?) ==>
      r == Failure(old(git.LastMessage()).error)
    ensures old(Untagged(config, fs.files, git) && git.LastMessage().Failure?) ==> unchanged(fs, git)
    // The entry is already in the changelog: nothing is written or committed.
    ensures old(PendingEntry(config, fs.files, git).Some?
                && PendingAppend(config, fs.files, git) == AlreadyPresent) ==>
      r == Success(Summary(Patch, ""))
    ensures old(PendingEntry(config, fs.files, git).Some?
                && PendingAppend(config, fs.files, git) == AlreadyPresent) ==>
      ctx.skipCommit == Some(true)
    ensures old(PendingEntry(config, fs.files, git).Some?
                && PendingAppend(config, fs.files, git) == AlreadyPresent) ==>
      unchanged(fs, git)
    // The entry is new: the changelog is written, then staged and committed.
    ensures old(PendingEntry(config, fs.files, git).Some? && PendingAppend(config, fs.files, git).Write?) ==>
      fs.files == old(fs.files[CHANGELOG_FILE := PendingAppend(config, fs.files, git).contents])
    ensures old(PendingEntry(config, fs.files, git).Some? && PendingAppend(config, fs.files, git).Write?) ==>
      ctx.skipCommit == Some(false)
    ensures old(PendingEntry(config, fs.files, git).Some? && PendingAppend(config, fs.files, git).Write?)
            && AddCmd(CHANGELOG_FILE) in git.failing ==>
      r == Failure(GitFailure(AddCmd(CHANGELOG_FILE))) && unchanged(git)
    ensures old(PendingEntry(config, fs.files, git).Some? && PendingAppend(config, fs.files, git).Write?)
            && AddCmd(CHANGELOG_FILE) !in git.failing && CommitCmd(CHANGELOG_COMMIT_MSG) in git.failing ==>
      && r == Failure(GitFailure(CommitCmd(CHANGELOG_COMMIT_MSG)))
      && git.history == old(git.history)
      && git.staged == old(git.staged[CHANGELOG_FILE := PendingAppend(config, fs.files, git).contents])
    ensures old(PendingEntry(config, fs.files, git).Some? && PendingAppend(config, fs.files, git).Write?)
            && AddCmd(CHANGELOG_FILE) !in git.failing && CommitCmd(CHANGELOG_COMMIT_MSG) !in git.failing ==>
      r == Success(Summary(Patch, old(PendingEntry(config, fs.files, git).value)))
    ensures old(PendingEntry(config, fs.files, git).Some? && PendingAppend(config, fs.files, git).Write?)
            && AddCmd(CHANGELOG_FILE) !in git.failing && CommitCmd(CHANGELOG_COMMIT_MSG) !in git.failing ==>
      && git.staged == map[]
      && git.history == old(git.history + [CommitRecord(CHANGELOG_COMMIT_MSG,
           git.staged[CHANGELOG_FILE := PendingAppend(config, fs.files, git).contents])])
  {
    ctx := new Context();
    var decided := AnalyzeCommits(config, ctx, fs, git);
    if decided.Failure? {
      return Failure(decided.error), ctx;
    }
    assert unchanged(fs, git);
    var notes := GenerateNotes(ctx, fs, git);
    if notes.Failure? {
      return Failure(notes.error), ctx;
    }
    assert unchanged(git);
    var prepared := Prepare(ctx, fs, git);
    if prepared.Failure? {
      return Failure(prepared.error), ctx;
    }
    Publish(ctx);
    r := Success(Summary(decided.value, notes.value));
  }

  /** Two generateNotes in a row: the first appends, the second finds the entry and writes nothing. */
  method NoteTwice(ctx: Context, fs: FileSystem, git: Git)
    returns (first: Result<string, Error>, second: Result<string, Error>)
    requires !ctx.skipRelease && ctx.nextRelease.Some? && git.LastMessage().Success?
    requires AppendEntry(ChangelogBase(fs.files),
                         Entry(ctx.nextRelease.value.version, git.LastMessage().value)).Write?
    modifies ctx, fs
    ensures var entry := Entry(old(ctx.nextRelease).value.version, git.LastMessage().value);
      && first == Success(entry)
      && second == Success("")
      && ctx.skipCommit == Some(true)
      && fs.files == old(fs.files)[CHANGELOG_FILE := ChangelogBase(old(fs.files)) + entry]
  {
    ghost var entry := Entry(ctx.nextRelease.value.version, git.LastMessage().value);
    ghost var files := fs.files;
    first := GenerateNotes(ctx, fs, git);
    NoteIdempotent(files, ctx.nextRelease.value.version, git.LastMessage().value);
    second := GenerateNotes(ctx, fs, git);
  }

  /** The entry has exactly the documented shape. */
  lemma EntryExample()
    ensures Entry("2.3.1", "fix: null pointer") == "\n## v2.3.1\n\n- fix: null pointer\n"
  {
  }

  /**
   * First release: the version file holds the version and a newline, its tag
   * does not exist, no changelog exists. The changelog is created from the
   * header and the entry for the last commit, and committed.
   */
  method FirstRelease(version: string, message: string)
    returns (r: Result<Summary, Error>, files: map<string, string>, history: seq<CommitRecord>)
    requires Unpadded(version) && Unpadded(message)
    ensures r == Success(Summary(Patch, Entry(version, message)))
    ensures files == map["version" := version + "\n", CHANGELOG_FILE := CHANGELOG_HEADER + Entry(version, message)]
    ensures history == [
      CommitRecord(message, map["version" := version + "\n"]),
      CommitRecord(CHANGELOG_COMMIT_MSG, map[CHANGELOG_FILE := CHANGELOG_HEADER + Entry(version, message)])]
  {
    var fs := new FileSystem(map["version" := version + "\n"]);
    var git := new Git({}, [CommitRecord(message, map["version" := version + "\n"])], {});
    assert [] + version + "\n" == version + "\n";
    TrimUnique([], version, "\n");
    assert [] + message + [] == message;
    TrimUnique([], message, []);
    HeaderHasNoEntry(version, message);
    var ctx;
    r, ctx := RunHooks(Config(None), fs, git);
    files := fs.files;
    history := git.history;
  }

  /** The version's tag already exists: the release is skipped and nothing is written or committed. */
  method TagAlreadyReleased(version: string, message: string)
    returns (r: Result<Summary, Error>, files: map<string, string>, history: seq<CommitRecord>)
    requires Unpadded(version)
    ensures r == Success(Summary(NoRelease, ""))
    ensures files == map["version" := version]
    ensures history == [CommitRecord(message, map["version" := version])]
  {
    var fs := new FileSystem(map["version" := version]);
    var git := new Git({TagName(version)}, [CommitRecord(message, map["version" := version])], {});
    assert [] + version + [] == version;
    TrimUnique([], version, []);
    var ctx;
    r, ctx := RunHooks(Config(None), fs, git);
    files := fs.files;
    history := git.history;
  }

  /**
   * The version comes from a configured file, its tag does not exist, and
   * CHANGELOG.md already holds the entry for the last commit: nothing is
   * written or committed.
   */
  method EntryAlreadyPresent(version: string, message: string)
    returns (r: Result<Summary, Error>, files: map<string, string>, history: seq<CommitRecord>, skipCommit: Option<bool>)
    requires Unpadded(version) && Unpadded(message)
    ensures r == Success(Summary(Patch, ""))
    ensures files == map["VERSION.txt" := version, CHANGELOG_FILE := CHANGELOG_HEADER + Entry(version, message)]
    ensures history == [CommitRecord(message, map[])]
    ensures skipCommit == Some(true)
  {
    var text := CHANGELOG_HEADER + Entry(version, message);
    var fs := new FileSystem(map["VERSION.txt" := version, CHANGELOG_FILE := text]);
    var git := new Git({}, [CommitRecord(message, map[])], {});
    assert [] + version + [] == version;
    TrimUnique([], version, []);
    assert [] + message + [] == message;
    TrimUnique([], message, []);
    IncludesSuffix(CHANGELOG_HEADER, Entry(version, message));
    var ctx;
    r, ctx := RunHooks(Config(Some("VERSION.txt")), fs, git);
    files := fs.files;
    history := git.history;
    skipCommit := ctx.skipCommit;
  }
}
