# Version-file release hooks, modelled in Dafny

`version-reader.js` is a plugin for a release orchestrator (semantic-release). It takes the
release version from a version file, not from commit history. It has four lifecycle hooks:

- **analyzeCommits** (`AnalyzeCommits`) reads the version file (`pluginConfig.file`, default
  `version`) and trims it. It then asks git whether the tag `v<version>` exists. If it does, it
  sets `skipRelease` and resolves with `false`. Otherwise it sets `nextRelease = {version, notes: ""}`
  and resolves with `"patch"`.
- **generateNotes** (`GenerateNotes`) does nothing when the release is skipped. Otherwise it builds
  the entry `"\n## v<version>\n\n- <last commit message>\n"`. It appends that entry to
  `CHANGELOG.md`, or to a fixed header when the file is absent, unless the entry already occurs
  there. It records in `skipCommit` whether it skipped.
- **prepare** (`Prepare`) stages and commits `CHANGELOG.md` with the message
  `docs: update CHANGELOG.md`, unless the release or the commit was skipped. It re-raises git failures.
- **publish** (`Publish`) does nothing.

The model has five modules, one file each:

- `Wrappers` holds `Option` and `Result`. A rejected promise is a `Failure`.
- `Text` holds ECMAScript `trim` and `includes` on `seq<char>`. Each comes with a reference
  definition and the lemmas that connect the two.
- `Environment` holds the working directory and git. The working directory is a `FileSystem`
  class whose `files` map goes from path to contents. Git is a `Git` class with resolvable refs,
  commit history, an index and a set of invocations that fail. Each git call either succeeds with
  its trimmed output or fails.
- `VersionReader` holds the constants, the shared `Context` class (`skipRelease`, a three-state
  `skipCommit`, an optional `nextRelease`), the four hooks as methods that change that state in
  place, and the pure pieces they use.
- `Orchestrator` runs the four hooks in order on a fresh context and stops at the first rejection.
  It also holds three release scenarios and a double-Note client.

Points where the JavaScript behaves in a way that is easy to misread, and which the model follows:

- `skipCommit` starts unset (`undefined`), not `false`. `prepare` treats unset like `false`.
- The fallback to `"version"` also applies when `pluginConfig.file` is the empty string, because
  JavaScript `||` treats `""` as false.
- Any failure of `git rev-parse` counts as "tag absent", not only "unknown revision", so the
  release then proceeds. The model keeps this behaviour: `AnalyzeCommits` branches only on whether
  the lookup succeeded.
- `generateNotes` reads `context.nextRelease.version` before calling git. If `nextRelease` is
  absent, this throws a `TypeError`, modelled as `Error.NoNextRelease`.

## Model

| member | source | states |
|---|---|---|
| Text.TrimStartSpec | version-reader.js:28 | the leading-whitespace cut removes only whitespace, keeps a suffix of the input, and stops at a non-whitespace character |
| Text.TrimEndSpec | version-reader.js:28 | the trailing-whitespace cut removes only whitespace, keeps a prefix of the input, and stops at a non-whitespace character |
| Text.TrimSpec | version-reader.js:28 | `trim` leaves neither end as whitespace and removes only whitespace from both ends of the input |
| Text.TrimUnique | version-reader.js:28 | whitespace, then a text with no whitespace at its ends, then whitespace, always trims to that text (the reference definition) |
| Text.TrimIdempotent | version-reader.js:19 | trimming an already trimmed string changes nothing |
| Text.IncludesIff | version-reader.js:67 | `includes` is true exactly when some index starts an occurrence of the searched text |
| Text.IncludesSuffix | version-reader.js:73 | a text appended to a document is included in the result |
| Text.IncludesExtend | version-reader.js:73 | appending to a document keeps every text it already included |
| Environment.Git.RevParse | version-reader.js:34-42 | `git rev-parse` succeeds exactly when the name is a resolvable ref and the call is not made to fail; every failure names the invocation, and any failure is what the catch-all at lines 40-42 swallows |
| Environment.FileSystem.Exists | version-reader.js:59 | `existsSync` is true exactly for the paths present in the working directory |
| Environment.FileSystem.ReadFile | version-reader.js:59-60 | `fs.readFile` succeeds exactly on the paths `existsSync` reports, yields that path's contents, and otherwise rejects naming the path |
| Environment.Git.LastMessage | version-reader.js:13-22 | `git log -1` fails exactly on an empty history or an injected failure; on success its value has no whitespace at either end (what the value is: `Environment.LastMessageSpec`) |
| Environment.LastMessageSpec | version-reader.js:13-22 | the message is the last commit's message with only leading and trailing whitespace removed |
| Environment.Git.Add | version-reader.js:91 | `git add` fails on a missing file or an injected failure and then changes nothing; otherwise it stages the file's current contents |
| Environment.Git.Commit | version-reader.js:92 | `git commit` fails on an empty index or an injected failure and then changes nothing; otherwise it appends one commit holding the index and clears the index |
| Environment.FileSystem.WriteFile | version-reader.js:73 | the write replaces that one path's contents and leaves every other path as it was |
| VersionReader.VersionFile | version-reader.js:27 | the version file is the configured path when one is given and non-empty, otherwise `"version"` |
| VersionReader.DeclaredVersion | version-reader.js:27-28 | the version is present exactly when the chosen version file exists, and it has no whitespace at either end |
| VersionReader.Context.constructor | version-reader.js:80-85 | a fresh context has `skipRelease` false, `skipCommit` unset and no `nextRelease`; the hooks set these fields, and `prepare` reads an unset `skipCommit` as false |
| VersionReader.DeclaredVersionSpec | version-reader.js:27-28 | the version is the version file's contents with only leading and trailing whitespace removed (with `DeclaredVersion`'s no-whitespace-at-the-ends and `TrimUnique`, this fixes it completely) |
| VersionReader.TagName | version-reader.js:29 | the tag is `v` followed by exactly the version |
| VersionReader.ChangelogBase | version-reader.js:58-63 | the document is the existing `CHANGELOG.md` when the file is present, and the fixed header otherwise |
| VersionReader.EntryParts | version-reader.js:65 | the entry is a heading that names the tag `v<version>`, then `"\n\n- "`, the message and a newline, so the version and the message sit at offsets fixed by the version's length |
| VersionReader.AppendEntrySpec | version-reader.js:67-76 | the guard skips exactly when the entry occurs in the document; otherwise the new document is the old one followed by the entry |
| VersionReader.AppendIdempotent | version-reader.js:67-73 | after an append, the same entry is found, so a second append of it is skipped |
| VersionReader.AppendKeepsEntries | version-reader.js:73 | an append keeps the old document as a prefix and loses none of the texts it included |
| VersionReader.HeaderHasNoEntry | version-reader.js:58-67 | the fixed header never already holds an entry, so the first Note on a repository without a changelog always writes |
| VersionReader.NoteIdempotent | version-reader.js:58-76 | once Note has written `CHANGELOG.md`, a Note with the same version and message finds its entry in the file |
| VersionReader.AnalyzeCommits | version-reader.js:26-46 | a missing version file rejects before any change; if the tag resolves, `skipRelease` is set, the result is `false` and `nextRelease` is untouched; if the lookup fails for any reason, the result is `"patch"` with `nextRelease = {trimmed version, ""}`; from a fresh context, `nextRelease` ends up set exactly when `skipRelease` does not |
| VersionReader.GenerateNotes | version-reader.js:48-77 | a skipped release returns `""` and changes nothing; a missing `nextRelease` or a failed `git log` rejects and changes nothing; an entry already present sets `skipCommit` to true, returns `""` and writes nothing; otherwise the file becomes the base document plus the entry, `skipCommit` becomes false, and the entry is returned |
| VersionReader.Prepare | version-reader.js:79-98 | skipped release or skipped commit: no git change; otherwise stage `CHANGELOG.md`, then commit it with the fixed message; a failure at either step rejects with that step's error and leaves the changelog on disk |
| VersionReader.Publish | version-reader.js:100-104 | publish changes no state |
| Orchestrator.RunHooks | version-reader.js:25-105 | the four hooks in order on a fresh context: a missing version file or an existing tag leaves files and git untouched; otherwise the outcome is the changelog write, stage and commit described above, each failure named |
| Orchestrator.NoteTwice | version-reader.js:58-76 | two Notes in a row: the first writes and returns the entry, the second returns `""`, sets `skipCommit` to true and writes nothing |
| Orchestrator.EntryExample | version-reader.js:65 | the entry for version `2.3.1` and message `fix: null pointer` is exactly `"\n## v2.3.1\n\n- fix: null pointer\n"` |
| Orchestrator.FirstRelease | version-reader.js:26-98 | fresh repository, untagged version: the result is `"patch"` with the entry as notes, `CHANGELOG.md` holds the header plus the entry, and one commit with the fixed message records it |
| Orchestrator.TagAlreadyReleased | version-reader.js:33-39 | the tag exists: the result is `false`, no file is created and no commit is made |
| Orchestrator.EntryAlreadyPresent | version-reader.js:67-71 | the changelog already holds the entry: the notes are `""`, `skipCommit` is true, and neither the files nor the history change |

## Left out

- Logging through `context.logger` is left out. It is advisory text and affects no state.
- The promise and `execFile` plumbing is left out, and so is the wording of the wrapped error
  message. A git failure is `GitFailure(command)`, naming the invocation that failed.
- Writing `CHANGELOG.md` always succeeds in the model. Disk and permission errors from
  `writeFile` are not modelled.
- Reading a file fails only when the path is absent. Permission errors, and the race between
  `existsSync` and `readFile`, are not modelled.
- Git is reduced to what the hooks observe:
  - `rev-parse` resolves only the names in `refs`, not commit ids or revision expressions.
  - `commit` fails only on an empty index or an injected failure, not when the staged contents
    equal HEAD.
  - The output of `rev-parse` is not used.
  - `add` fails on a path missing from disk, while real git stages the removal of a tracked file
    that was deleted. The hooks never reach this case: `prepare` only stages after
    `generateNotes` has written `CHANGELOG.md`.
- Environment.Git.LastMessage: the message is the stored commit message, trimmed. The formatting
  details of `%B` (the trailing newline git adds) are not modelled; trimming removes them anyway.
- Strings are sequences of Unicode code points, while JavaScript strings are UTF-16 code units.
  `trim` agrees on both for well-formed text, because every whitespace character is in the Basic
  Multilingual Plane and so is one code unit. `includes` agrees on both because UTF-16 is
  self-synchronising: a well-formed searched text, here an entry that starts and ends with
  `'\n'`, can only match at code-point boundaries.
- The orchestrator itself is not modelled beyond running the hooks in order:
  - what `"patch"` means to it;
  - how it uses the returned notes;
  - tagging and publishing after these hooks.
- A `pluginConfig.file` value that is not a string is not modelled.
