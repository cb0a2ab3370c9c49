/**
 * The release hooks of version-reader.js: analyzeCommits (here AnalyzeCommits),
 * generateNotes, prepare and publish. The release version comes from a
 * version file; a release is skipped when its tag already exists; a changelog
 * entry for the last commit is appended to CHANGELOG.md unless already there,
 * and committed.
 */
module VersionReader {
  import opened Wrappers
  import opened Text
  import opened Environment

  const DEFAULT_VERSION_FILE: string := "version"
  const CHANGELOG_FILE: string := "CHANGELOG.md"
  // The same text as one literal; split so that its characters can be inspected.
  const CHANGELOG_HEADER: string :=
    "# Changelog\n\n" + "All notable changes " + "will be documented here.\n"
  const CHANGELOG_COMMIT_MSG: string := "docs: update CHANGELOG.md"

  /** The plugin configuration: only the optional version-file path. */
  datatype Config = Config(file: Option<string>)

  /** What analyzeCommits resolves with: `false` or the release type "patch". */
  datatype ReleaseType = NoRelease | Patch

  datatype Release = Release(version: string, notes: string)

  /** The context object the orchestrator shares between the hooks. */
  class Context {
    var skipRelease: bool
    /** Unset until generateNotes decides it. */
    var skipCommit: Option<bool>
    var nextRelease: Option<Release>

    constructor ()
      ensures !skipRelease && skipCommit == None && nextRelease == None
    {
      skipRelease := false;
      skipCommit := None;
      nextRelease := None;
    }
  }

  /** `pluginConfig.file || "version"`: an absent or empty path falls back. */
  function VersionFile(config: Config): (path: string)
    ensures path != []
    ensures path == DEFAULT_VERSION_FILE || config.file == Some(path)
    ensures config.file.Some? && config.file.value != [] ==> path == config.file.value
  {
    if config.file.Some? && config.file.value != [] then config.file.value else DEFAULT_VERSION_FILE
  }

  /** The trimmed contents of the version file, when it exists. */
  function DeclaredVersion(config: Config, files: map<string, string>): (v: Option<string>)
    ensures v.Some? <==> VersionFile(config) in files
    ensures v.Some? ==> Unpadded(v.value)
  {
    if VersionFile(config) in files then
      TrimSpec(files[VersionFile(config)]);
      Some(Trim(files[VersionFile(config)]))
    else None
  }

  /** The declared version is the version file's contents with only surrounding whitespace removed. */
  lemma DeclaredVersionSpec(config: Config, files: map<string, string>)
    requires VersionFile(config) in files
    ensures exists k :: TrimmedAt(files[VersionFile(config)], DeclaredVersion(config, files).value, k)
  {
    var contents := files[VersionFile(config)];
    TrimSpec(contents);
    assert DeclaredVersion(config, files).value == Trim(contents);
  }

  /** The tag a version is released under. */
  function TagName(version: string): (tag: string)
    ensures |tag| == |version| + 1 && tag[0] == 'v' && tag[1..] == version
  {
    "v" + version
  }

  /** The changelog entry for a release and the message of its last commit. */
  function Entry(version: string, message: string): string {
    "\n## v" + version + "\n\n- " + message + "\n"
  }

  /**
   * The entry can be read back: a level-two heading naming the release's tag,
   * then a one-item list holding the message, each at a fixed offset.
   */
  lemma EntryParts(version: string, message: string)
    ensures var e := Entry(version, message);
      && |e| == |version| + |message| + 10
      && e[..4] == "\n## "
      && e[4..5 + |version|] == TagName(version)
      && e[5..5 + |version|] == version
      && e[5 + |version|..9 + |version|] == "\n\n- "
      && e[9 + |version|..|e| - 1] == message
      && e[|e| - 1] == '\n'
  {
  }

  /** The changelog document: the file when present, else the fixed header. */
  function ChangelogBase(files: map<string, string>): (base: string)
    ensures CHANGELOG_FILE in files ==> base == files[CHANGELOG_FILE]
    ensures CHANGELOG_FILE !in files ==> base == CHANGELOG_HEADER
  {
    if CHANGELOG_FILE in files then files[CHANGELOG_FILE] else CHANGELOG_HEADER
  }

  /** What generateNotes does with the changelog document. */
  datatype Append = AlreadyPresent | Write(contents: string)

  /** The duplicate guard: append `entry` to `base` unless it is included in it. */
  function AppendEntry(base: string, entry: string): Append {
    if Includes(base, entry) then AlreadyPresent else Write(base + entry)
  }

  /**
   * The guard skips exactly when the entry occurs somewhere in the document,
   * and otherwise writes the document followed by the entry.
   */
  lemma AppendEntrySpec(base: string, entry: string)
    ensures AppendEntry(base, entry) == AlreadyPresent <==> exists i :: OccursAt(base, entry, i)
    ensures AppendEntry(base, entry) != AlreadyPresent ==> AppendEntry(base, entry) == Write(base + entry)
  {
    IncludesIff(base, entry);
  }

  /** After one append, the same entry is found: a second Note writes nothing. */
  lemma AppendIdempotent(base: string, entry: string)
    requires AppendEntry(base, entry).Write?
    ensures AppendEntry(AppendEntry(base, entry).contents, entry) == AlreadyPresent
  {
    IncludesSuffix(base, entry);
    IncludesIff(base + entry, entry);
  }

  /** An append keeps the old document as a prefix and loses none of its entries. */
  lemma AppendKeepsEntries(base: string, entry: string, earlier: string)
    requires AppendEntry(base, entry).Write?
    ensures base <= AppendEntry(base, entry).contents
    ensures Includes(base, earlier) ==> Includes(AppendEntry(base, entry).contents, earlier)
  {
    if Includes(base, earlier) {
      IncludesExtend(base, entry, earlier);
    }
  }

  /** The fixed header never holds an entry, so Note always writes on a fresh repository. */
  lemma HeaderHasNoEntry(version: string, message: string)
    ensures AppendEntry(CHANGELOG_HEADER, Entry(version, message))
      == Write(CHANGELOG_HEADER + Entry(version, message))
  {
    var e := Entry(version, message);
    var h := CHANGELOG_HEADER;
    var a, b, c := "# Changelog\n\n", "All notable changes ", "will be documented here.\n";
    assert forall k :: 1 <= k < |a| ==> a[k] != '#';
    assert forall k :: 0 <= k < |b| ==> b[k] != '#';
    assert forall k :: 0 <= k < |c| ==> c[k] != '#';
    assert e[1] == '#';
    IncludesIff(h, e);
    forall i | 0 <= i && i + |e| <= |h|
      ensures !OccursAt(h, e, i)
    {
      assert h[i..i + |e|][1] == h[i + 1];
    }
  }

  /** The second Note of the same version and message finds its entry on disk. */
  lemma NoteIdempotent(files: map<string, string>, version: string, message: string)
    requires AppendEntry(ChangelogBase(files), Entry(version, message)).Write?
    ensures var written := files[CHANGELOG_FILE := ChangelogBase(files) + Entry(version, message)];
      AppendEntry(ChangelogBase(written), Entry(version, message)) == AlreadyPresent
  {
    AppendIdempotent(ChangelogBase(files), Entry(version, message));
  }

  /**
   * analyzeCommits: read the version file, trim it, and look the tag up.
   * Any failure of the lookup, not only "unknown revision", lets the release proceed.
   */
  method AnalyzeCommits(config: Config, ctx: Context, fs: FileSystem, git: Git)
    returns (r: Result<ReleaseType, Error>)
    modifies ctx
    ensures DeclaredVersion(config, fs.files) == None ==>
      r == Failure(ReadFailure(VersionFile(config))) && unchanged(ctx)
    ensures ctx.skipCommit == old(ctx.skipCommit)
    ensures DeclaredVersion(config, fs.files).Some? ==>
      var version := DeclaredVersion(config, fs.files).value;
      git.RevParse(TagName(version)).Success? ==>
        r == Success(NoRelease) && ctx.skipRelease && ctx.nextRelease == old(ctx.nextRelease)
    ensures DeclaredVersion(config, fs.files).Some? ==>
      var version := DeclaredVersion(config, fs.files).value;
      git.RevParse(TagName(version)).Failure? ==>
        && r == Success(Patch)
        && ctx.skipRelease == old(ctx.skipRelease)
        && ctx.nextRelease == Some(Release(version, ""))
    ensures old(!ctx.skipRelease && ctx.nextRelease == None) && r.Success? ==>
      (ctx.nextRelease.Some? <==> !ctx.skipRelease)
  {
    var file := VersionFile(config);
    var contents :- fs.ReadFile(file);
    var version := Trim(contents);
    var tagName := TagName(version);
    var lookup := git.RevParse(tagName);
    if lookup.Success? {
      ctx.skipRelease := true;
      return Success(NoRelease);
    }
    ctx.nextRelease := Some(Release(version, ""));
    return Success(Patch);
  }

  /**
   * generateNotes: build the entry for the next release from the last commit
   * message and append it to the changelog unless it is already there.
   */
  method GenerateNotes(ctx: Context, fs: FileSystem, git: Git) returns (r: Result<string, Error>)
    modifies ctx, fs
    ensures ctx.skipRelease == old(ctx.skipRelease) && ctx.nextRelease == old(ctx.nextRelease)
    ensures old(ctx.skipRelease) ==> r == Success("") && unchanged(ctx, fs)
    ensures !old(ctx.skipRelease) && old(ctx.nextRelease) == None ==>
      r == Failure(NoNextRelease) && unchanged(ctx, fs)
    ensures !old(ctx.skipRelease) && old(ctx.nextRelease).Some? && git.LastMessage().Failure? ==>
      r == Failure(git.LastMessage().error) && unchanged(ctx, fs)
    ensures !old(ctx.skipRelease) && old(ctx.nextRelease).Some? && git.LastMessage().Success? ==>
      var entry := Entry(old(ctx.nextRelease).value.version, git.LastMessage().value);
      AppendEntry(ChangelogBase(old(fs.files)), entry) == AlreadyPresent ==>
        r == Success("") && ctx.skipCommit == Some(true) && unchanged(fs)
    ensures !old(ctx.skipRelease) && old(ctx.nextRelease).Some? && git.LastMessage().Success? ==>
      var entry := Entry(old(ctx.nextRelease).value.version, git.LastMessage().value);
      var append := AppendEntry(ChangelogBase(old(fs.files)), entry);
      append.Write? ==>
        && r == Success(entry)
        && ctx.skipCommit == Some(false)
        && fs.files == old(fs.files)[CHANGELOG_FILE := append.contents]
  {
    if ctx.skipRelease {
      return Success("");
    }
    if ctx.nextRelease.None? {
      return Failure(NoNextRelease);
    }
    var version := ctx.nextRelease.value.version;
    var log := git.LastMessage();
    if log.Failure? {
      return Failure(log.error);
    }
    var commitMsg := log.value;
    var changelog: string;
    if fs.Exists(CHANGELOG_FILE) {
      changelog := fs.files[CHANGELOG_FILE];
    } else {
      changelog := CHANGELOG_HEADER;
    }
    assert changelog == ChangelogBase(fs.files);
    var entry := Entry(version, commitMsg);
    match AppendEntry(changelog, entry)
    case AlreadyPresent =>
      ctx.skipCommit := Some(true);
      return Success("");
    case Write(contents) =>
      fs.WriteFile(CHANGELOG_FILE, contents);
      ctx.skipCommit := Some(false);
      return Success(entry);
  }

  /**
   * prepare: stage and commit CHANGELOG.md unless the release or the commit is
   * skipped. A git failure rejects; the changelog stays written either way.
   */
  method Prepare(ctx: Context, fs: FileSystem, git: Git) returns (r: Result<(), Error>)
    modifies git
    ensures git.refs == old(git.refs) && git.failing == old(git.failing)
    ensures ctx.skipRelease || ctx.skipCommit == Some(true) ==> r == Success(()) && unchanged(git)
    ensures !ctx.skipRelease && ctx.skipCommit != Some(true) ==>
      if AddCmd(CHANGELOG_FILE) in git.failing || CHANGELOG_FILE !in fs.files then
        r == Failure(GitFailure(AddCmd(CHANGELOG_FILE))) && unchanged(git)
      else
        var staged := old(git.staged)[CHANGELOG_FILE := fs.files[CHANGELOG_FILE]];
        if CommitCmd(CHANGELOG_COMMIT_MSG) in git.failing then
          && r == Failure(GitFailure(CommitCmd(CHANGELOG_COMMIT_MSG)))
          && git.staged == staged && git.history == old(git.history)
        else
          && r == Success(())
          && git.history == old(git.history) + [CommitRecord(CHANGELOG_COMMIT_MSG, staged)]
          && git.staged == map[]
  {
    if ctx.skipRelease {
      return Success(());
    }
    if ctx.skipCommit == Some(true) {
      return Success(());
    }
    var added := git.Add(CHANGELOG_FILE, fs);
    if added.Failure? {
      return added;
    }
    assert CHANGELOG_FILE in git.staged;
    r := git.Commit(CHANGELOG_COMMIT_MSG);
  }

  /** publish: does nothing, whether or not the release was skipped. */
  method Publish(ctx: Context)
    ensures unchanged(ctx)
  {
  }
}
