# Quartz path, content-stash and source-map helpers in Dafny

This project models three small pieces of the Quartz static-site generator's
tooling and proves properties of them:

- **Path classification** (`quartz/util/path.ts`): the extension extractor
  `getFileExtension`, the segment-aware `endsWith`, the branded-type guards
  `isFilePath`, `isFullSlug`, `isSimpleSlug` and `isRelativeURL`, and `sluggify`,
  which rewrites a title-like path into a URL slug one `/`-segment at a time.
  All are pure functions over strings (`module Path`, file `path.dfy`).
- **CLI helpers** (`quartz/cli/helpers.js`, `module CliHelpers`, file
  `cli_helpers.dfy`):
  - `escapePath`, the unescape/unquote/trim chain applied to a path typed into a shell;
  - `stashContentFolder` / `popContentFolder`, which move the content folder into
    a single-slot cache folder and back. They are modelled as the methods `Stash`
    and `Pop` of a `ContentStore` class whose two fields are the two folders
    (`None` when a folder does not exist). Each method performs the source's three
    steps (remove, copy, remove) in order;
  - `gitPull`: the argument vector it hands to git and how it classifies what the
    subprocess reports.
- **Source-map lookup** (`quartz/util/sourcemap.ts`, `module SourceMap`): the
  location `retrieveSourceMap` computes for a source in the build cache.

The JavaScript string built-ins these rely on (`startsWith`, `endsWith`,
`includes`, `split`, `join`, `trim`, the regular-expression classes `\s` and
`.`) are modelled once in `module JsString` (`js_string.dfy`). Optional results
and thrown errors use `Option` and `Outcome` from `module Wrappers`.

Modelling choices that follow the code:

- `getFileExtension` is the match of `/\.[A-Za-z0-9]+$/`. Only the last `.` of a
  string can start such a match, so the model measures the run of ASCII letters
  and digits at the end of the string and looks at the character before it.
- JavaScript's `\s` (used by `sluggify`) and `trim` (used by `escapePath`) strip
  the same set: ECMAScript WhiteSpace plus LineTerminator. `JsString.IsWhiteSpace`
  lists those code points.
- In `escapePath` the patterns `/^"(.*)"$/` and `/^'(.*)'$/` have no `s` flag,
  so `.` does not match a line terminator: a quoted string that spans lines
  keeps its quotes. `StripEnclosing` models this.
- `fs.promises.cp` rejects a source that does not exist, and the helpers do not
  catch it. So `stashContentFolder` with no content folder removes the cache,
  then fails. `popContentFolder` with no cache removes the content folder, then
  fails, so the content folder is lost. In both methods the new state is the same
  function of the old state whether the copy succeeds or fails
  (`Stash`: cache := old content, content := none; `Pop`: content := old cache,
  cache := none). The outcome says which case happened.
- `spawnSync` reports `stderr` as a buffer or `null`. A buffer is truthy even
  when it is empty, so any buffer counts as an error. `status` is a number, or
  `null` when git was killed or could not start, and `null !== 0`.
  `gitPull` spawns git with `stdio: "inherit"` (`quartz/cli/helpers.js:79-81`),
  so the child writes straight to the terminal and `out.stderr` is always `null`:
  in practice only a status other than 0 fails the pull. `GitPull` keeps the
  `stderr` branch so that the classification holds for any runner.
- `escapePath` trims after it unescapes, so an escaped space at the very end of
  a path is unescaped and then trimmed away: `My\ ` comes back as `My`
  (`CliHelpers.EscapePathDropsEscapedTrailingSpace`).

`handleUpdate` (`quartz/cli/handlers.js:244-254`) stashes and pulls but never
calls `popContentFolder`, on success or failure, so the round trip proved here
belongs to the helper pair only.

## Model

| member | source | states |
|---|---|---|
| `Path.GetFileExtension` | quartz/util/path.ts:8-10 | the result, when present, is a suffix of `s` made of `.` and one or more ASCII letters/digits; every such suffix of `s` is exactly the result, so the result is absent when none exists |
| `Path.ExtensionOf` | quartz/util/path.ts:8-10 | an extension that ends `s` is what `getFileExtension` returns |
| `Path.FilePathMeaning` | quartz/util/path.ts:62-65 | `isFilePath(s)` (`Path.IsFilePath`) holds iff `s` does not start with `.` and some suffix of `s` is an extension, which is what `_hasFileExtension` (`Path.HasFileExtension`) tests |
| `Path.FullSlugMeaning` | quartz/util/path.ts:77-81 | `isFullSlug(s)` (`Path.IsFullSlug`) holds iff `s` does not start with `.` or `/`, does not end with `/`, and contains no space, `#`, `?` or `&`, the characters `containsForbiddenCharacters` (`Path.ContainsForbiddenCharacters`) looks for |
| `Path.EndsWithSegmentMeaning` | quartz/util/path.ts:28-30 | `endsWith(s, suffix)` (`Path.EndsWithSegment`) holds iff `s == suffix` or `s` ends with `suffix` with a `/` right before it |
| `Path.EndsWithSegmentExamples` | quartz/util/path.ts:24-30 | `"myindex"` does not end with `index` in this sense; `"notes/index"` and `"index"` do |
| `Path.SimpleSlugMeaning` | quartz/util/path.ts:93-97 | `isSimpleSlug(s)` (`Path.IsSimpleSlug`) holds iff `s` is empty or starts with neither `.` nor, unless it is exactly `/`, `/`; contains no space, `#`, `?` or `&`; has no final `index` segment; and has no extension suffix |
| `Path.SimpleSlugStart` | quartz/util/path.ts:93-97 | `"/"` is a simple slug; no string starting with `.` is, nor any longer string starting with `/`, nor any string whose last segment is `index` or that has an extension |
| `Path.SimpleSlugTrailingSlash` | quartz/util/path.ts:83-97 | a trailing slash is allowed: `"notes/"` is a simple slug |
| `Path.SimpleSlugIsNoFilePath` | quartz/util/path.ts:62-97 | no string is both a simple slug and a file path |
| `Path.RelativeUrlExtension` | quartz/util/path.ts:111 | the extension `getFileExtension` finds is `.md` or `.html` iff the string ends with `.md` or `.html` |
| `Path.RelativeUrlMeaning` | quartz/util/path.ts:108-112 | `isRelativeURL(s)` (`Path.IsRelativeURL`) holds iff `s` starts with `.`, has no final `index` segment, and ends with neither `.md` nor `.html` |
| `Path.RelativeUrlIsNoFullSlug` | quartz/util/path.ts:77-112 | no string is both a relative URL and a full slug |
| `Path.ReplaceAll` | quartz/util/path.ts:132-136 | every character of a global single-character replacement's output comes from the replacement text or is an input character the pattern does not match |
| `Path.SluggifySegmentIsRewrite` | quartz/util/path.ts:131-136 | the five replacements of `Path.SluggifySegment` on one segment, in their order, rewrite each character independently: white space to `-`, `&` to `-and-`, `%` to `-percent`, `?` and `#` to nothing |
| `Path.SluggifyIsRewrite` | quartz/util/path.ts:126-140 | `sluggify(s)` (`Path.Sluggify`) is that per-character rewrite of the whole of `s` with one trailing `/` dropped; splitting at `/` and joining back changes nothing else |
| `Path.SluggifyHasNoForbidden` | quartz/util/path.ts:126-140 | the output of `sluggify` contains no white space, `&`, `%`, `?` or `#`, so `containsForbiddenCharacters` is false on it |
| `Path.SluggifySlashes` | quartz/util/path.ts:128-139 | `sluggify` keeps every `/` except a single trailing one of the rewritten path; a path ending in `/` loses exactly one |
| `Path.SluggifyExample` | quartz/util/path.ts:126-140 | `sluggify("a b/c&d/") == "a-b/c-and-d"` |
| `JsString.Split` | quartz/util/path.ts:129 | `split` with a one-character separator gives one more part than the separator's occurrences, and no part contains the separator |
| `JsString.JoinSplit` | quartz/util/path.ts:129-138 | joining (`JsString.Join`) the parts of a split with the same separator gives back the string |
| `JsString.Trim` | quartz/cli/helpers.js:21 | the result has no white space at either end and is the input with only white space removed before and after it |
| `CliHelpers.UnescapeSpaces` | quartz/cli/helpers.js:18 | replacing each backslash-space by a space never lengthens the string |
| `CliHelpers.UnescapeEscapeSpaces` | quartz/cli/helpers.js:8-18 | unescaping (`CliHelpers.UnescapeSpaces`) undoes the shell's escaping of spaces (`My Favorite` shown as `My\ Favorite`) |
| `CliHelpers.UnescapeEachEscapedSpace` | quartz/cli/helpers.js:18 | every backslash-space of the input becomes one plain space, wherever it stands |
| `CliHelpers.UnescapeSpacesAppend` | quartz/cli/helpers.js:18 | unescaping works piece by piece unless the cut separates a backslash from the space after it |
| `CliHelpers.UnescapeSpacesNoEscape` | quartz/cli/helpers.js:18 | a string with no backslash-space is left unchanged |
| `CliHelpers.StripEnclosing` | quartz/cli/helpers.js:19-20 | the result is the input unchanged, or the input with exactly one enclosing pair of the quote removed and no line terminator inside |
| `CliHelpers.StripEnclosingQuoted` | quartz/cli/helpers.js:19-20 | a single-line string wrapped in one pair of quotes loses exactly that pair |
| `CliHelpers.EscapePath` | quartz/cli/helpers.js:16-22 | the output has no leading or trailing white space |
| `CliHelpers.EscapePathOfShellPath` | quartz/cli/helpers.js:8-22 | a path shown escaped by the shell, bare or in double quotes, comes back as typed when it is not padded and not itself wrapped in the quotes the chain strips; a quoted one must also be single-line, since `.` does not cross a line break |
| `CliHelpers.EscapePathDropsEscapedTrailingSpace` | quartz/cli/helpers.js:16-22 | an escaped space at the end of a path is lost: trimming runs after unescaping, so `t + "\\ "` comes back as `t` |
| `CliHelpers.CopyTreeVerbatim` | quartz/cli/helpers.js:52-57 | copying (`CliHelpers.CopyTree`) with `verbatimSymlinks` and `preserveTimestamps` reproduces the tree exactly: file contents, file timestamps, symlink targets |
| `CliHelpers.CopyTreeStampsFiles` | quartz/cli/helpers.js:52-57 | without `preserveTimestamps` a copied file gets the copy time as its timestamp |
| `CliHelpers.ContentStore.Stash` | quartz/cli/helpers.js:40-62 | after stashing, the cache holds exactly the former content tree and the content folder is absent, whatever the cache held before; it fails exactly when there was no content folder |
| `CliHelpers.ContentStore.Pop` | quartz/cli/helpers.js:90-109 | after popping, the content folder holds exactly the former cache tree and the cache is absent; it fails exactly when there was no cache, leaving no content folder |
| `CliHelpers.PopAfterStash` | quartz/cli/helpers.js:47-109 | popping right after stashing restores the original content folder and leaves the cache empty |
| `CliHelpers.StashDiscardsCache` | quartz/cli/helpers.js:47-51 | stashing discards the previous cache: states that differ only in the cache stash to the same state |
| `CliHelpers.GitPullArgs` | quartz/cli/helpers.js:70-79 | git is run with exactly `pull`, `--no-rebase`, `--autostash`, `-s`, `recursive`, `-X`, `ours`, `--no-edit`, origin, branch, in that order |
| `CliHelpers.GitPullArgsInjective` | quartz/cli/helpers.js:79 | the argument list determines the remote and the branch |
| `CliHelpers.GitPullOutcome` | quartz/cli/helpers.js:83-87 | the pull succeeds iff there is no error output and the status is 0; error output, when present, is what the error carries; otherwise any other status (or none) is a plain failure |
| `CliHelpers.GitPull` | quartz/cli/helpers.js:69-88 | the pull succeeds iff running git with the pull arguments reports no error output and status 0 |
| `JsString.SplitFirst` | quartz/util/sourcemap.ts:20 | the first part of a split is the text before the first separator, or the whole string |
| `SourceMap.BeforeQuery` | quartz/util/sourcemap.ts:20 | `split("?", 2)[0]` is a prefix of the source without `?` that is the whole source or stops right before its first `?` |
| `SourceMap.SourceMapLocation` | quartz/util/sourcemap.ts:18-27 | a location is computed iff the source contains `.quartz-cache`; it ends with `.map`, contains no `?`, and without `.map` is the source up to its first `?` |
| `SourceMap.SourceMapWithoutQuery` | quartz/util/sourcemap.ts:14-20 | a cache source without `?` maps to itself with `.map` appended |
| `SourceMap.SourceMapIgnoresQuery` | quartz/util/sourcemap.ts:20 | two cache sources that differ only after their first `?` map to the same location |
| `SourceMap.SourceMapOfQueriedBuild` | quartz/util/sourcemap.ts:9-20 | a build in the cache loaded with any cache-busting query maps to the build file's own name with `.map` appended |
| `SourceMap.SourceMapOutsideCache` | quartz/util/sourcemap.ts:19-26 | a source that does not contain `.quartz-cache` gets no map |

## Left out

- `isAbsoluteURL` (`quartz/util/path.ts:117-124`): it defers to the URL parser of the WHATWG URL Standard through `new URL`, a foreign call.
- The TypeScript brands (`SlugLike<T>`) are compile-time types only; the guards are modelled as predicates.
- `exitIfCancel` (`quartz/cli/helpers.js:31-38`): a prompt-library cancel check followed by `process.exit`.
- The git subprocess itself: `GitPull` takes the process runner as a parameter, and only the argument list and the classification of `(stderr, status)` are modelled. The coloured error messages are not.
- `fileURLToPath` and `readFileSync` in `retrieveSourceMap`: `SourceMapLocation` returns the location before it is turned into a file path and read.
- Real file-system behaviour of `rm` and `cp`: permissions, partial copies, a crash between the three steps, and directory timestamps. Trees are values, and the helpers are not atomic in the model either.
- `cp` into an existing destination (it would merge): both helpers remove the destination just before copying, so this case does not arise.
- The case where the content folder and the cache folder overlap on disk. The value of `contentCacheFolder` (imported at `quartz/cli/helpers.js:5`) is not given here, so the two folders are modelled as independent slots.
- `quartz/cli/handlers.js`, `args.js`, `constants.js`, `bootstrap-cli.mjs` and the type-only files: interactive prompts, option tables and I/O plumbing, none of it part of this model.
- The incremental-rebuild scheduler and the commit/push sync flow are not modelled.
- JavaScript strings are sequences of UTF-16 code units, and the model's strings are sequences of Unicode scalar values. The regular expressions here have no `u` flag, and none of their classes contains a surrogate, so the classifications agree. Lengths of strings with characters outside the Basic Multilingual Plane differ, and no property here depends on them.
