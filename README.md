# update-readmes: README tokens and docgen runs, in Dafny

This project models the core of `bin/update-readmes.js`, the script of the
block editor repository that regenerates the API sections of the package
READMEs. The script does four things:

- It scans README text for start markers `<!-- START TOKEN(...) -->` with the
  regular expression `TOKEN_PATTERN`.
- For every README that has at least one marker, it passes on the file with
  its ordered `(token, sourcePath)` pairs. The source path defaults to
  `src/index.js`.
- It maps a file path below the packages directory to its package name
  (`getFilePackage`). From the file arguments it builds the glob fragment that
  selects which package READMEs to read.
- For each pair of a README it starts one docgen process. The process reads
  `packages/<pkg>/<path>`, writes `packages/<pkg>/README.md` and is given
  `--use-token "<token>"`. The processes for one README run one after
  another, in token order.

Modules, one per concern of the script:

- `Wrappers` (wrappers.dfy): `Option`.
- `Text` (text.dfy): JavaScript line terminators, and `split` and `join` on one
  character, with both round trips proved.
- `TokenPattern` (token_pattern.dfy): the regular expression as a backtracking
  engine reads it, and `matchAll` over it. The engine is written as functions
  that try things in the engine's order. The lazy body comes first. For each
  body length the optional `|path` group is tried before the bare close, and
  the path is lazy too. The engine is proved equal to a declarative reference,
  `IsRegexBody`: the first way to finish the body, in that order. `matchAll`
  is proved equal to `IsScan`: the first match at or after a position, then
  resume at the match's end.
- `ReadmeTokens` (readme_tokens.dfy): the stream transform for one README. It
  is a method with the source's loop, proved against the specification
  function `TokenRefs`.
- `Packages` (packages.dfy): `getFilePackage`, and the glob fragment as
  written and as corrected.
- `Docgen` (docgen.dfy): the docgen arguments, and the sequential `reduce`
  written as a left fold.

Two consequences of the pattern that the proofs make explicit:

- Capture 2, the path, is the text after the first `|` of the token that is
  neither the token's first nor its last character. When the token has no
  such `|`, there is no capture 2 and the path is `src/index.js`
  (`MatchPathRule`, `TokenRefsWellFormed`).
- The token does not always end at the first `) -->` after the opening
  literal. For the text `a|) -->) -->` after the opening literal, the engine
  takes the `|` after `a` and the lazy path runs on to the second close. So
  capture 1 is `a|) -->`,
  although a close starts two characters after the `a` (`BodyPassesFirstClose`).

## Model

| member | source | states |
|---|---|---|
| Text.Split | bin/update-readmes.js:44 | `split(sep)` gives at least one piece, and no piece holds the separator |
| Text.SplitHead | bin/update-readmes.js:44 | the first piece of a split is the longest prefix of the string without the separator |
| Text.JoinSplit | bin/update-readmes.js:44 | joining the pieces of a split gives the string back |
| Text.Join | bin/update-readmes.js:93 | `join()` with the default `,`: no contract of its own; `JoinSplit` and `SplitJoin` prove it is the inverse of `Split` |
| Text.SplitJoin | bin/update-readmes.js:93 | splitting the join of separator-free pieces gives the pieces back |
| TokenPattern.MatchAt | bin/update-readmes.js:34 | a match found at position i starts at i and ends after i, within the text |
| TokenPattern.LazyCloseFromIsFirst | bin/update-readmes.js:34 | the lazy `(.+?)\) -->` search stops at the first close reachable without crossing a line terminator, or finds none when there is none |
| TokenPattern.LazyCloseIsFirst | bin/update-readmes.js:34 | the lazy path `(.+?)` followed by `) -->` ends at the first close on the same line after at least one character |
| TokenPattern.BodyFromChoosesFirst | bin/update-readmes.js:34 | once the body has taken text[b..q] with no way to stop before q, the search returns the engine's first way to finish, or proves there is none |
| TokenPattern.BodyAtChoosesFirst | bin/update-readmes.js:34 | the body search at b returns the first way to finish the body in the engine's order (shortest body, group before bare close, shortest path), or proves there is none |
| TokenPattern.RegexBodyUnique | bin/update-readmes.js:34 | the engine's first way to finish the body is unique |
| TokenPattern.BodyAtIsRegexBody | bin/update-readmes.js:34 | the body search gives a body exactly when that body is the engine's first choice (both directions) |
| TokenPattern.BodyAtShape | bin/update-readmes.js:34 | a found body is non-empty, on one line and followed by `) -->`; its path follows a bar character that is not the body's first character |
| TokenPattern.MatchShape | bin/update-readmes.js:34 | a match spans the opening literal, capture 1 and `) -->`; capture 1 is non-empty and on one line; capture 2 is a non-empty tail of capture 1 after a bar character that is not its first character |
| TokenPattern.MatchAtIffMarker | bin/update-readmes.js:34 | the pattern matches at i exactly when `<!-- START TOKEN(` is at i and some way to finish the body exists |
| TokenPattern.MatchPathRule | bin/update-readmes.js:34 | capture 2 is the text after the first bar character of capture 1 that is neither its first nor its last character; without such a bar there is no capture 2 |
| TokenPattern.Matches | bin/update-readmes.js:66 | `content.matchAll( TOKEN_PATTERN )`: no contract of its own; `MatchesIsScan` and `ScanUnique` prove it equal to the declarative scan `IsScan`, and `MatchesInOrder` gives the order |
| TokenPattern.MatchesIsScan | bin/update-readmes.js:66 | `matchAll` yields the first match at or after the current position, then resumes at that match's end; it yields nothing when no later position matches |
| TokenPattern.ScanUnique | bin/update-readmes.js:66 | only one sequence of matches is such a scan, so the scan fixes the matches and their order |
| TokenPattern.MatchesInOrder | bin/update-readmes.js:66 | every yielded match is a real match at its start, matches come in text order, and they do not overlap |
| TokenPattern.ScanInOrder | bin/update-readmes.js:66 | the matches of any such scan are real matches, in text order, without overlap |
| TokenPattern.NoMatchesIffNoMarker | bin/update-readmes.js:66 | `matchAll` yields nothing exactly when no position matches |
| TokenPattern.MarkerRoundTrip | bin/update-readmes.js:34 | wrapping a one-line token without an inner `) -->` in a marker and scanning it gives the token back as the only match |
| TokenPattern.BodyPassesFirstClose | bin/update-readmes.js:34 | for the text `a`, bar, `) -->) -->` after the opening literal, capture 1 stops at the second close and capture 2 is `) -->`, although a close starts right after the bar |
| ReadmeTokens.RefOf | bin/update-readmes.js:67 | the destructuring of one match with the `src/index.js` default: no contract of its own; `RefsOf` states it pointwise and `TokenRefsWellFormed` proves the path rule |
| ReadmeTokens.RefsOf | bin/update-readmes.js:67-68 | each match gives one pair of capture 1 and capture 2, or `src/index.js` when capture 2 is absent, in match order |
| ReadmeTokens.TokenRefs | bin/update-readmes.js:64-69 | the pairs collected from all matches of a README: no contract of its own; `TokenRefsFollowMarkers`, `TokenRefsWellFormed` and `NoTokensIffNoMarker` prove what they are, and `Transform`'s loop is proved equal to it |
| ReadmeTokens.Transform | bin/update-readmes.js:57-77 | the transform passes on `[file, tokens]` exactly when the read succeeded, the content is non-empty and at least one marker matches; the tokens are the pairs of all markers |
| ReadmeTokens.TokenRefsWellFormed | bin/update-readmes.js:34-67 | every pair has a non-empty one-line token; its path is the text after the first bar character of the token that is neither its first nor its last character, and otherwise `src/index.js` |
| ReadmeTokens.TokenRefsFollowMarkers | bin/update-readmes.js:66-69 | there is one pair per match of `matchAll`, in marker order, and each token is exactly the text between `<!-- START TOKEN(` and `) -->` of its marker |
| ReadmeTokens.NoTokensIffNoMarker | bin/update-readmes.js:63-73 | a README has no pairs, and so is not passed on, exactly when no position of its text matches |
| Packages.Relative | bin/update-readmes.js:44 | the relative path of a file below the packages directory, rejoined to the directory, gives the file |
| Packages.FilePackage | bin/update-readmes.js:43-45 | the package name contains no `/`, is a prefix of the relative path, and ends at the path's end or at a `/` |
| Packages.FilePackageOf | bin/update-readmes.js:43-45 | any file inside `<packages>/<name>/`, and the directory itself, belongs to package `name` |
| Packages.PackageNames | bin/update-readmes.js:93 | `files.map( getFilePackage )` gives one name per file argument, in argument order |
| Packages.PackagesGlob | bin/update-readmes.js:93 | the `packages` expression as written: no contract of its own; `PackagesGlobLists` reads the names back from it and `PackagesGlobMissesWithTwoFiles` shows what the glob does with it |
| Packages.PackagesGlobLists | bin/update-readmes.js:85-93 | the fragment is `*` without file arguments; otherwise splitting it at `,` gives the package names of the arguments, in argument order |
| Packages.PackagesGlobMissesWithTwoFiles | bin/update-readmes.js:93-95 | as written, two or more file arguments give a fragment that the glob reads as one literal directory name, which matches no plain package name |
| Packages.PackagesGlobFixed | bin/update-readmes.js:93 | the corrected fragment (a brace list for two or more arguments): no contract of its own; `PackagesGlobFixedSelects` proves it selects exactly the arguments' packages |
| Packages.PackagesGlobFixedSelects | bin/update-readmes.js:93-95 | the corrected fragment matches a package exactly when there are no file arguments or the package is the package of one of them |
| Docgen.DocgenCall | bin/update-readmes.js:107-117 | the `execa` call for one pair: no contract of its own; `DocgenCallReadsBack` reads the token, the source file and the output file back out of its arguments |
| Docgen.DocgenCallReadsBack | bin/update-readmes.js:107-117 | a docgen call passes the pair's token in `--use-token "…"`, reads `packages/<pkg>/<path>` and writes `packages/<pkg>/README.md` |
| Docgen.DocgenWritesItsReadme | bin/update-readmes.js:105-111 | for a README `<root>/packages/<pkg>/README.md`, the docgen calls write that same README when the script runs from the repository root |
| Docgen.RunInOrder | bin/update-readmes.js:102-125 | the awaited `reduce` chain as a left fold: no contract of its own; `RunInOrderCalls` proves it adds one call per pair, in pair order, after the calls already started |
| Docgen.RunInOrderCalls | bin/update-readmes.js:102-125 | the sequential fold keeps the calls already started and adds exactly one call per pair, in pair order |
| Docgen.ReadmeCalls | bin/update-readmes.js:97-125 | the calls for one README passed on by the transform, with the package of its file and a fold started from no calls: no contract of its own; `ReadmeCallsFollowMarkers` and `RunInOrderCalls` prove what they are |
| Docgen.ReadmeCallsFollowMarkers | bin/update-readmes.js:97-117 | a README's calls are one per marker, in marker order; each uses its marker's token and, when the script runs from the repository root, writes the README's own package README |

## Findings

| source | as written | input that shows it | evidently intended | confidence | as-written member | corrected member |
|---|---|---|---|---|---|---|
| bin/update-readmes.js:93 | `files.map( getFilePackage ).join()` joins the names with a bare `,`, and this fragment goes straight into the glob `<packages>/<fragment>/README.md` | file arguments in packages `blocks` and `data` give `<packages>/blocks,data/README.md`; a glob reads a comma as an alternative only inside braces, so it looks for one directory named `blocks,data` and updates no README | the READMEs of every package named by the arguments, e.g. `{blocks,data}` | medium; not executed, and it depends on the glob library's brace syntax | Packages.PackagesGlobMissesWithTwoFiles | Packages.PackagesGlobFixedSelects |

## Left out

- Reading the README (`readFile`) is an input. `Transform` takes `None` for a failed read, which the script swallows, and `Some(content)` otherwise.
- The `fast-glob` stream and the Node `Transform` stream plumbing are not modelled. Nor is the order in which READMEs arrive.
- The `data` handlers of different READMEs run concurrently. The model keeps only the order within one README.
- `execa` runs docgen through a shell (`shell: true`). The model records each call's executable and arguments. It does not model how the shell joins and splits them, for example a token with a `"` or a path with a space.
- A failing docgen process makes the script print the error and `process.exit(1)`, so later calls never start. The model lists the calls that run when every process succeeds.
- `path.join` normalises `packages/<pkg>/<path>`, for example `./` and `..` segments. `DocgenCall` concatenates the parts with `/`.
- `PACKAGES_DIR` comes from `__dirname` and is a parameter (`dir`). The path to the docgen binary is taken relative to the repository root.
- Docgen.DocgenWritesItsReadme: docgen resolves its source path `packages/<pkg>/<path>` and its `--output` path against the working directory, because `execa` is given no `cwd`. The README itself is found through the absolute `PACKAGES_DIR`. The model reads both against one `root`, that is, it takes the working directory to be the repository root, which the script does not ensure. The same holds for Docgen.ReadmeCallsFollowMarkers.
- Packages.FilePackage: requires the file to lie below the packages directory, with `/` as separator. For other files the script gives names such as `..`. The model also leaves out how `path.relative` resolves relative arguments against the working directory, platform separators, and normalisation of `//` or trailing separators.
- Packages.PackagesGlobLists: reads the names back from the fragment only when no package name holds a `,`.
- Packages.SegmentMatches models only the package segment of the glob, and only fragments made of plain names: `*`, a brace list, or a literal. The rest of the glob syntax is not modelled.
- JavaScript strings are UTF-16 code units and the model uses characters. `.` and the literals behave the same on both, because no line terminator is a surrogate.
- packages/block-editor/src/components/focus-capture/index.js is not part of this model. It is a UI component whose behaviour is DOM focus transfer and a store subscription.
- packages/e2e-tests/specs/editor/various/keyboard-navigable-blocks.test.js is not part of this model. It is browser automation with no logic of its own.
- packages/blocks/src/api/test/utils.js is not part of this model. It tests block helpers that lie outside the script modelled here.
- packages/block-library/src/paragraph/index.native.js is not part of this model. It is a settings shim around the paragraph block's web settings and a translation call, and is not part of this script.
