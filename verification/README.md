# unity-setup resolution model

A Dafny model of the resolution logic of the `unity-setup` GitHub action
(`src/index.js`). Before the action runs the PowerShell install script, it
decides three things:

- **Which modules to install.** Either an explicit `modules` list, or the
  `build-targets` input resolved through one of three fixed per-OS tables
  (Linux, Darwin, Windows_NT). The table is picked by `os.type()`.
- **Which architecture to pass.** An explicit `architecture` input, or a
  default on macOS hosts.
- **Which version to install.** The `unity-version` input, or the
  `version-file-path` input, or the result of `findFile`. `findFile`
  searches the working directory for `ProjectVersion.txt`.

It then assembles
`-modulesList "…" -versionFilePath|-unityVersion "…" -architecture "…"`.

The model makes every environmental value a parameter: `os.type()`,
`os.arch()`, the action inputs, the working directory and the file tree
below it. The file system is a finite tree of directory listings (`Entry`).
Paths are sequences of components. Warnings are returned as a sequence of
messages.

Files:

- `results.dfy`: the `Option` and `Result` wrappers.
- `text.dfy`: the string operations the code uses. These are the `\s`
  class, comma removal, `split(/\s+/)`, `trim()`, `endsWith` and `join`.
- `module_tables.dfy`: the three per-OS tables.
- `build_targets.dfy`: tokenisation and the target loop.
- `architecture.dfy`: the architecture default.
- `file_search.dfy`: `findFile`.
- `install.dfy`: version precedence, the argument string and the whole run.
  It also holds a small reader (`ParseArgs`, `ParseVersion`, `ParseField`,
  `UntilQuote`, `StripPrefix`). The action has no such reader. It exists
  only so that the contracts of `BuildArgs`, `VersionField` and `Field` can
  say that the argument strings of lines 105 and 108 carry their values
  recoverably.

## Behaviour as written

Some behaviour of the code differs from what a reader of the action's
description might expect. The model follows the code:

- `findFile` returns one path **per matching subdirectory**, not at most
  one. The `break` at src/index.js:142 only leaves the inner loop. So
  sibling subtrees are not short-circuited. `FileSearch.FindFileFirst`
  relates this result to a first-match-only search: the two agree on
  whether anything is found and on the first path.
  `FileSearch.SiblingMatchesScenario` shows a tree where they differ.
- If the search finds nothing, no error is raised. The empty array is
  interpolated as `""`.
- Arrays are interpolated with commas. This applies to the explicit
  `modules` list after tokenising, and to the `findFile` result.
- The "not supported" error is raised only when `build-targets` is
  non-empty.
- Whitespace is the full ECMAScript `\s` set. That set includes the
  Unicode space separators, and `trim()` strips the same set.

## Model

| member | source | states |
|---|---|---|
| `Text.IsSpaceCategories` | src/index.js:68 | The whitespace test (`\s` in line 68, and what `trim` strips at line 85) holds exactly for the ECMAScript WhiteSpace characters (tab, vertical tab, form feed, byte order mark, the Unicode space separators) and LineTerminator characters. |
| `Text.RemoveCommas` | src/index.js:68 | The result holds every character of the input except commas, and none other. A comma-free input is returned unchanged. |
| `Text.RemoveCommasAppend` | src/index.js:68 | Comma deletion distributes over concatenation. |
| `Text.TrimStart` | src/index.js:85 | The result is the longest suffix of the input that does not start with whitespace. Everything dropped is whitespace. |
| `Text.TrimEnd` | src/index.js:85 | The result is the longest prefix of the input that does not end with whitespace. Everything dropped is whitespace. |
| `Text.Trim` | src/index.js:85 | The result is a contiguous slice of the input, its middle kept as is, and everything cut from either end is whitespace. The result neither starts nor ends with whitespace. A string that already has non-whitespace ends is unchanged. |
| `Text.Split` | src/index.js:68 | At least one token. No token holds whitespace. Only the first and last token can be empty. For a non-empty input, the first token is empty exactly when the input starts with whitespace. An input that ends with whitespace gives an empty last token. |
| `Text.SplitChars` | src/index.js:68 | Every character of every token occurs in the input. |
| `Text.SplitAppend` | src/index.js:68 | Splitting a concatenation whose left part does not end in whitespace glues the last token of the left part to the first token of the right part and keeps all other tokens. |
| `Text.SplitRun` | src/index.js:68 | Any run of whitespace, of any length and any mix of whitespace characters, splits exactly like a single space. With SplitJoin this fixes the tokens of every input. |
| `Text.SplitJoin` | src/index.js:68 | Split inverts joining with single spaces, for every token sequence Split can produce. |
| `Text.JoinPrefix` | src/index.js:98-108 | A joined array starts with its first element. |
| `Text.JoinEnd` | src/index.js:98-108 | A joined array ends with its last element. |
| `Text.JoinSnoc` | src/index.js:81 | Appending one more piece to a joined sequence adds a separator and the piece. |
| `Text.JoinAppend` | src/index.js:98-108 | Joining a concatenation of two non-empty sequences is the join of the first, the separator, then the join of the second. |
| `Text.TrimTrailingSpace` | src/index.js:81-85 | Appending each module followed by a space and then trimming gives the modules joined by single spaces. |
| `BuildTargets.Tokenize` | src/index.js:68 | At least one token, with no whitespace and no comma in any token. Only the first and last token can be empty. Leading whitespace gives an empty first token; a leading word gives a non-empty one. Trailing whitespace gives an empty last token. |
| `BuildTargets.TokenizeRun` | src/index.js:68 | Between comma-free words, tabs, newlines or several spaces separate tokens exactly as one space does. |
| `BuildTargets.TabSeparatedTargets` | src/index.js:68 | Two targets separated by a tab tokenise to exactly those two targets. |
| `BuildTargets.TokenizeJoin` | src/index.js:68 | Tokenising comma-free, space-free words joined by single spaces gives back the words. |
| `BuildTargets.TokenizeIgnoresCommas` | src/index.js:68 | A comma inserted anywhere does not change the tokens. Commas are deleted, not treated as separators. |
| `BuildTargets.CommaScenario` | src/index.js:68 | `A,B` tokenises to the single target `AB`. |
| `ModuleTables.TableFor` | src/index.js:33-66 | A table exists exactly for `Linux`, `Darwin` and `Windows_NT`. Any other OS fails with `<osType> not supported`. Every table value is a non-empty identifier without whitespace. |
| `ModuleTables.TableEntries` | src/index.js:36-63 | Sample table entries, such as Windows `StandaloneWindows64`→`windows-il2cpp`. Also targets that a table leaves unmapped. |
| `ModuleTables.EmptyTargetUnmapped` | src/index.js:36-63 | No supported host's table maps the empty target. |
| `BuildTargets.LeadingSpaceWarning` | src/index.js:68-78 | On every supported host, input that starts with whitespace yields a first warning for the empty target. |
| `BuildTargets.TrailingSpaceWarning` | src/index.js:68-78 | On every supported host, input that ends with whitespace yields a last warning for the empty target. |
| `BuildTargets.Warning` | src/index.js:77 | The warning for a target starts with that target. |
| `BuildTargets.WarningInjective` | src/index.js:77 | Different targets never get the same warning. |
| `BuildTargets.Mapped` | src/index.js:71-83 | The resolved modules: at most one per target, each one a module of the active table. |
| `BuildTargets.Warnings` | src/index.js:71-83 | Every target yields exactly one module or one warning: the warnings and modules together are as many as the targets. |
| `BuildTargets.ResolveAppend` | src/index.js:71-83 | Modules and warnings of a concatenated target list are the concatenations of both parts. Order is kept and duplicates are preserved. |
| `BuildTargets.ResolveOne` | src/index.js:74-82 | A mapped target contributes its table image and no warning. An unmapped target contributes exactly one warning and no module. |
| `BuildTargets.MappedContents` | src/index.js:71-83 | A module is in the result exactly when some input target maps to it. |
| `BuildTargets.MappedAll` | src/index.js:71-83 | If every target is mapped, the modules are the targets' images position by position, with no warnings. |
| `BuildTargets.MappedNone` | src/index.js:71-85 | If no target is mapped, there are no modules (not an error) and there is one warning per target, in order. |
| `BuildTargets.MappedWellFormed` | src/index.js:81 | Every resolved module is a non-empty identifier without whitespace. |
| `BuildTargets.ResolveStep` | src/index.js:71-83 | One more target extends the modules by its image when it is mapped. Otherwise it extends the warnings by one warning for it. |
| `BuildTargets.AppendModules` | src/index.js:71-83 | After the loop, the accumulated string is empty when nothing is mapped. Otherwise it is the mapped modules joined by single spaces plus one trailing space. The warnings are those of the unmapped targets, in order. |
| `BuildTargets.ResolveBuildTargets` | src/index.js:33-86 | Fails with `<osType> not supported` exactly for an unsupported OS. The append-with-space loop followed by `trim` yields exactly the mapped modules joined by single spaces, plus the warnings of the unmapped targets. |
| `BuildTargets.ModuleStringRoundTrip` | src/index.js:81-85 | The module string has no whitespace at either end and splits back into exactly the mapped modules. |
| `BuildTargets.WindowsScenario` | src/index.js:53-83 | `StandaloneWindows64 Android` on Windows resolves to `windows-il2cpp`, `android` with no warnings. |
| `BuildTargets.UnknownTargetScenario` | src/index.js:36-83 | `Foo` on Linux resolves to no module and one warning. |
| `Architecture.DefaultArchitecture` | src/index.js:12-24 | A non-empty input is kept. Otherwise only a Darwin host on `arm64` or `x64` gets `arm64` or `x86_64`. Every other case keeps the empty input. The result is non-empty exactly in those cases. |
| `Architecture.DefaultArchitectureByTable` | src/index.js:12-24 | The default equals a lookup: the input when given, else the macOS name of a known processor (`arm64`→`arm64`, `x64`→`x86_64`) on a Darwin host, else the empty string. |
| `FileSearch.FirstMatch` | src/index.js:124-134 | Returns the position of the first non-directory entry whose name ends with the suffix. Returns none exactly when no such entry exists. |
| `FileSearch.FindFileMatchingLevel` | src/index.js:124-136 | A level with a matching file yields exactly `[dir/<first match>]`, whatever its subdirectories contain. |
| `FileSearch.FindFile` | src/index.js:119-148 | A level with a matching file yields exactly one path. Otherwise the result is no longer than the number of subdirectories. Every path lies under `dir`, and its last component ends with the suffix. |
| `FileSearch.SearchSubdirs` | src/index.js:136-145 | The descent yields at most one path per subdirectory. Every path lies under `dir`, and its last component ends with the suffix. |
| `FileSearch.SearchSubdirsAppend` | src/index.js:137-145 | The descent over a concatenated listing is the concatenation of the descents, so sibling subtrees are not short-circuited. |
| `FileSearch.FindFileNonMatchingLevel` | src/index.js:136-145 | At a level without a match, the search of `a + b` is the search of `a` followed by that of `b`. |
| `FileSearch.FindFileSingleEntry` | src/index.js:124-145 | What one entry contributes: a matching file gives its path, other files give nothing. A subdirectory gives the first path found below it, or nothing. |
| `FileSearch.FindFileEmpty` | src/index.js:119-148 | The result is empty exactly when no file anywhere in the tree matches. |
| `FileSearch.HasMatchAt` | src/index.js:129 | A matching entry at any position makes the listing contain a match. |
| `FileSearch.FindFileSound` | src/index.js:119-148 | Every path found extends `dir` and leads through the tree to a matching file. |
| `FileSearch.LocatesEndsWith` | src/index.js:129 | The last component of a path that leads to a match ends with the suffix. |
| `FileSearch.FindFileFirst` | src/index.js:136-145 | The search is empty exactly when the first-match search finds nothing. Its first path is the first-match search's result. |
| `FileSearch.ProjectSettingsScenario` | src/index.js:119-148 | A version file in `ProjectSettings` next to an `Assets` folder without one is found as `cwd/ProjectSettings/ProjectVersion.txt`. |
| `FileSearch.SiblingMatchesScenario` | src/index.js:137-144 | Two sibling folders that each hold a version file give two paths. The first-match search gives only the first. |
| `Install.RenderPath` | src/index.js:125 | A resolved path starts at the root and ends with its last component. A one-component path is `/` followed by that component. |
| `Install.RenderPathResolve` | src/index.js:125 | Resolving one more name against a directory gives the directory's path, `/`, then the name. |
| `Install.RenderPathUnder` | src/index.js:125 | A path below a directory renders as the directory's path, `/`, then the relative components joined by `/`. |
| `Install.RenderPathPrefix` | src/index.js:125 | The path of a directory followed by `/` is a prefix of the path of anything below it. |
| `Install.RenderPaths` | src/index.js:98-105 | The search result as interpolated: `""` for no path, the path itself for one, otherwise the first path, a comma and the rendering of the rest. |
| `Install.ResolveVersion` | src/index.js:89-100 | A non-empty `unity-version` wins. Otherwise a non-empty `version-file-path` is used verbatim. Without a Unity version the result is always a version file path. |
| `Install.ExplicitVersionSkipsSearch` | src/index.js:93-100 | With either input set, the result does not depend on the working directory or the tree, so no search takes place. |
| `Install.NoVersionFileFound` | src/index.js:94-105 | With neither input and no version file in the tree, the result is the empty version file path, not an error. |
| `Install.SearchedVersionFile` | src/index.js:94-100 | With neither input and a version file somewhere in the tree, the version file path starts with the first-match search's result. It is exactly that path when the search returns one path. Otherwise the further paths follow, comma-separated. |
| `Install.SiblingVersionFilesScenario` | src/index.js:98-105 | Two sibling folders that each hold a version file give the version file path `cwd/A/ProjectVersion.txt,cwd/B/ProjectVersion.txt`. |
| `Install.ProjectVersionScenario` | src/index.js:93-100 | With neither input, a project with `ProjectSettings/ProjectVersion.txt` uses that path. |
| `Install.UntilQuote` | src/index.js:105 | Splits at the first double quote. The part before the quote has none. Returns nothing exactly when there is no quote. |
| `Install.UntilQuoteAppend` | src/index.js:105 | A quote-free value followed by a quote is read back as that value. |
| `Install.Field` | src/index.js:105-108 | A `flag "value"` field, followed by anything, is read back as its value, when the value holds no double quote. |
| `Install.UnityVersionFieldIsNotPath` | src/index.js:105-108 | A `-unityVersion` field is never read as a `-versionFilePath` field. |
| `Install.VersionField` | src/index.js:105-108 | The version field, whichever flag it carries, is read back as the same version, when the value holds no double quote. |
| `Install.BuildArgs` | src/index.js:102-109 | The argument string reads back into exactly its modules list, version and architecture, when no value contains a double quote. So the order is fixed: `-modulesList`, then exactly one of `-versionFilePath`/`-unityVersion`, then `-architecture`. |
| `Install.ArgsCollision` | src/index.js:105-108 | Without escaping, a double quote in a value lets two different modules/version pairs give the same argument string. |
| `Install.FailureMessage` | src/index.js:115 | The failure text starts with `Unity Installation Failed! ` and ends with the error's message. |
| `Install.Run` | src/index.js:9-116 | Fails, with the `Unity Installation Failed!` prefix, exactly when build targets are given on an unsupported OS. Otherwise the args carry the comma-joined explicit modules (with no warnings) or the space-joined mapped modules (with their warnings), the resolved version and the defaulted architecture. |

## Left out

- The root `index.js` is left out. It is plumbing that reads two inputs, runs `pwsh` and checks the exit code.
- Debug messages are not modelled. Warnings are a returned sequence rather than `core.warning` calls.
- `io.which`, `exec.exec` and the PowerShell install script are external side effects. The model stops at the argument string.
- The trimming that `core.getInput` itself applies is not modelled; it lives in `@actions/core`, outside this code. Inputs are the strings `getInput` returns.
- `os.type()`, `os.arch()` and `process.cwd()` are parameters.
- The file system is a finite tree of listings. Exceptions from `readdir` or `statSync` are left out, as are unreadable directories, symbolic links (which `statSync` follows) and cycles. The source lets these errors propagate to the `catch` in `main`.
- `path.resolve` is modelled as appending one component. `RenderPath` joins components with `/` after a leading `/`. Windows drive letters and backslashes are not modelled.
- Install.BuildArgs: the read-back is promised only for values without a double quote. The source puts values between quotes without escaping. With a quote inside a value, different inputs can give the same argument string (`Install.ArgsCollision`), so no read-back exists in general.
- Tables are finite maps. Keys a JavaScript object inherits from its prototype (such as `constructor`) are not modelled.
