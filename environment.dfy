/**
 * The collaborators the hooks talk to: the working directory's files and the
 * `git` executable. Both are explicit state here; a git invocation either
 * succeeds with its trimmed standard output or fails, as decided by the
 * repository's state and by an injected set of invocations that fail
 * (a permission problem, a corrupt repository, a missing binary, ...).
 */
module Environment {
  import opened Wrappers
  import opened Text

  /** The four git invocations the hooks make. */
  datatype GitCommand =
    | RevParseCmd(name: string)   // git rev-parse <name>
    | LogCmd                      // git log -1 --pretty=%B
    | AddCmd(path: string)        // git add <path>
    | CommitCmd(message: string)  // git commit -m <message>

  /** A commit: its message and the file contents it recorded. */
  datatype CommitRecord = CommitRecord(message: string, files: map<string, string>)

  datatype Error =
    | ReadFailure(path: string)       // reading a missing file rejects
    | GitFailure(command: GitCommand) // a git invocation exited with an error
    | NoNextRelease                   // destructuring an absent `nextRelease` throws

  /** The working directory: path to contents. */
  class FileSystem {
    var files: map<string, string>

    constructor (files: map<string, string>)
      ensures this.files == files
    {
      this.files := files;
    }

    /** `existsSync(path)`. */
    function Exists(path: string): (b: bool)
      reads this
      ensures b <==> path in files
    {
      path in files
    }

    /** `fs.readFile(path)`: it succeeds exactly on the paths `existsSync` reports. */
    function ReadFile(path: string): (r: Result<string, Error>)
      reads this
      ensures r.Success? <==> Exists(path)
      ensures r.Success? ==> r.value == files[path]
      ensures r.Failure? ==> r.error == ReadFailure(path)
    {
      if path in files then Success(files[path]) else Failure(ReadFailure(path))
    }

    /** Overwrites (or creates) `path`. */
    method WriteFile(path: string, contents: string)
      modifies this
      ensures files == old(files)[path := contents]
    {
      files := files[path := contents];
    }
  }

  class Git {
    /** Names that `git rev-parse` resolves (tags, branches, ...). */
    var refs: set<string>
    /** The current branch, oldest commit first. */
    var history: seq<CommitRecord>
    /** The index: path to the contents staged for the next commit. */
    var staged: map<string, string>
    /** Invocations that fail whatever the repository holds. */
    var failing: set<GitCommand>

    constructor (refs: set<string>, history: seq<CommitRecord>, failing: set<GitCommand>)
      ensures this.refs == refs && this.history == history && this.failing == failing
      ensures staged == map[]
    {
      this.refs := refs;
      this.history := history;
      this.failing := failing;
      staged := map[];
    }

    /** `git rev-parse name`; its output (an object id) is never used. */
    function RevParse(name: string): (r: Result<(), Error>)
      reads this
      ensures r.Success? <==> name in refs && RevParseCmd(name) !in failing
      ensures r.Failure? ==> r.error == GitFailure(RevParseCmd(name))
    {
      if name in refs && RevParseCmd(name) !in failing then Success(())
      else Failure(GitFailure(RevParseCmd(name)))
    }

    /** `git log -1 --pretty=%B`, with its output trimmed by the wrapper. */
    function LastMessage(): (r: Result<string, Error>)
      reads this
      ensures r.Success? <==> history != [] && LogCmd !in failing
      ensures r.Success? ==> Unpadded(r.value)
    {
      if history == [] || LogCmd in failing then Failure(GitFailure(LogCmd))
      else
        TrimSpec(history[|history| - 1].message);
        Success(Trim(history[|history| - 1].message))
    }

    /** `git add path`: stages the file's current contents. */
    method Add(path: string, fs: FileSystem) returns (r: Result<(), Error>)
      modifies this
      ensures refs == old(refs) && history == old(history) && failing == old(failing)
      ensures if AddCmd(path) in failing || path !in fs.files
        then r == Failure(GitFailure(AddCmd(path))) && unchanged(this)
        else r == Success(()) && staged == old(staged)[path := fs.files[path]]
    {
      if AddCmd(path) in failing || !fs.Exists(path) {
        return Failure(GitFailure(AddCmd(path)));
      }
      staged := staged[path := fs.files[path]];
      return Success(());
    }

    /** `git commit -m message`: records the index as a new commit. */
    method Commit(message: string) returns (r: Result<(), Error>)
      modifies this
      ensures refs == old(refs) && failing == old(failing)
      ensures if CommitCmd(message) in failing || old(staged) == map[]
        then r == Failure(GitFailure(CommitCmd(message))) && unchanged(this)
        else (r == Success(())
              && history == old(history) + [CommitRecord(message, old(staged))]
              && staged == map[])
    {
      if CommitCmd(message) in failing || staged == map[] {
        return Failure(GitFailure(CommitCmd(message)));
      }
      history := history + [CommitRecord(message, staged)];
      staged := map[];
      return Success(());
    }
  }

  /**
   * The message `git log -1` yields is the last commit's message with only
   * surrounding whitespace removed.
   */
  lemma LastMessageSpec(git: Git)
    requires git.LastMessage().Success?
    ensures var m := git.history[|git.history| - 1].message;
      exists k :: TrimmedAt(m, git.LastMessage().value, k)
  {
    TrimSpec(git.history[|git.history| - 1].message);
  }
}
