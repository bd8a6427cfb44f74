# LAZYASF-TERM alias editor, modelled in Dafny

LAZYASF-TERM is a small command-line tool that manages shell aliases in
`~/.zshrc`. This project models its core:

- the alias editor of `lib/zshrcEditor.ts`:
  - `addAlias` overwrites the first line that defines the name, or appends a new `alias name='command'` line;
  - `removeAlias` blanks the first defining line;
  - `listAliases` scans the file for alias lines and formats each one as `name => command`;
- the interactive add flow of `lib/cliFlow.ts`: the two prompt validators, and
  `handleUserResponses`, which passes confirmed answers on to `addAlias` and wraps its errors.

The model is split into these modules:

- `Text` covers the JavaScript string primitives the code relies on: the `\s` class and `trim()`. It also holds the model's own view of a file as `\n`-separated lines (`Lines`, and its inverse `Join`), with their round-trip lemmas. The source itself never splits the file; it runs patterns with the `m` flag over the whole text.
- `Constants` holds the two patterns of `lib/constants.ts` as predicates on strings.
- `Errors` holds `AppError` and its codes.
- `AliasText` holds the text transformations as pure functions: `Upsert`, `RemoveFirst` and `Listing`. It also models `String.prototype.replace` with its `$` patterns.
- `ZshrcEditor` specifies each editor operation twice:
  - as a pure step function (`AddStep`, `RemoveStep`) from the files before the call, and from which file-system calls fail, to the outcome and the files after it;
  - as a method of the class `AliasStore`, whose fields `rc` and `backup` (`~/.zshrc` and `~/.zshrc.bak`) are updated in place in the source's order. `AddAlias` and `RemoveAlias` are proved equal to their step functions. `ListAliases` has no step function: its loop is proved to return `Success(Listing(rc))`, or the read error.
- `CliFlow` holds the validators, `HandleStep`/`HandleUserResponses`, and the lemmas that connect the prompt to the editor.

A regular expression compiled with the `m` flag is read as a predicate on single
lines. That reading is exact for files whose only line terminator is `\n` and
that have no "open" alias line (`alias` plus white space and no `=`, on which
`\s+` or `[^=]+` would run on into the next line). This condition is
`AliasText.LineLocal`. It is the invariant `AliasStore.Valid()`.
`RemoveAlias` preserves it. `AddAlias` preserves it after a failure, and after a
success when both arguments are single lines without `$` (`PlainArguments`).

Two behaviours of the code are modelled as written:

- **The name check is inverted.** `REGEX.ALIAS_VALIDATION` (`lib/constants.ts:21`)
  matches a character outside `[a-zA-Z0-9_가-힣.]`. Both `addAlias`
  (`lib/zshrcEditor.ts:29`) and `validateShortAlias` (`lib/cliFlow.ts:69`) refuse
  a name when the pattern does *not* match. So a name made only of allowed
  characters (`gs`) is refused with `INVALID_ALIAS`, and only names holding some
  other character (`g s`, `g-s`) get through. The opposite was meant: the error
  message at `lib/zshrcEditor.ts:31` lists the allowed characters, and the comment
  at `lib/cliFlow.ts:68` says the error is for input holding invalid characters.
  (The comment at `lib/zshrcEditor.ts:27-28` says to keep the `!` for a pattern of
  disallowed characters, which is what the code does.) `AddStep`, `ValidateShortAlias`, `AddRejectsPlainName`
  and `PromptAndEditorAgree` state the behaviour as written. Because the prompt
  and the editor apply the same test, they agree with each other.
- **`$` patterns in the overwrite branch.** When the alias already exists, the new
  line goes through `zshrc.replace(aliasRegex, newLine)`, so `$$`, `$&`,
  `` $` `` and `$'` in the command are expanded. A command holding `$$` is
  therefore written with `$` when it overwrites, but with `$$` when it is
  appended (`UpsertCollapsesDoubleDollar`). The lemmas that need the new line
  verbatim require arguments without `$` (`PlainArguments`).

## Model

| member | source | states |
|---|---|---|
| Constants.HasDisallowedChar | lib/constants.ts:21 | `ALIAS_VALIDATION.test`: some character lies outside `[a-zA-Z0-9_가-힣.]`; specified by `AddStep`, `ValidateShortAlias` and `AddRejectsPlainName` |
| Constants.DefinesAlias | lib/constants.ts:20 | `ALIAS_PATTERN` with the name put in literally, on one line; specified in both directions by `SpacedDefinitionSplits`/`DefinitionIsListed` and `ShapeDefines` |
| Constants.IsRegexMeta | lib/zshrcEditor.ts:51 | the characters `addAlias` escapes; used by `LiteralName` |
| ZshrcEditor.EscapesLiterally | lib/zshrcEditor.ts:48-52 | the names whose escaped form is put into `ALIAS_PATTERN` unchanged: no `$` followed by `&`, `` ` `` or `'`; `AddStep` promises `Upsert` only for these |
| ZshrcEditor.LiteralName | lib/zshrcEditor.ts:90 | the names that `removeAlias`'s unescaped pattern matches literally: no `\n` and no regular-expression metacharacter |
| AliasText.NewLine | lib/zshrcEditor.ts:36 | `alias name='command'`; specified by `NewLineDefines` and `ParseNewLine` |
| AliasText.ReplaceLineAt | lib/zshrcEditor.ts:61 | `replace` of the leftmost match on line `i`, with `$` patterns expanded by `Expand`; specified by `ReplaceLineVerbatim` and `UpsertCollapsesDoubleDollar` |
| AliasText.Upsert | lib/zshrcEditor.ts:48-64 | the text `addAlias` writes; specified by `UpsertLines`, `UpsertFirstDefinition`, `UpsertIdempotent`, `UpsertCountsOneDefinition` and `UpsertListing` |
| AliasText.RemoveFirst | lib/zshrcEditor.ts:119 | the text `removeAlias` writes; specified by `RemoveBlanksLine`, `RemoveCountsOneLess` and `RemoveIsUnlisted` |
| AliasText.ParseAliasLine | lib/zshrcEditor.ts:150-157 | one match of the listing pattern, both groups trimmed; specified in both directions by `ParseSplit` and `ParseAliasLineShape`, and by `ParseNewLine` and `DefinitionIsListed` |
| AliasText.Listing | lib/zshrcEditor.ts:150-171 | what `listAliases` returns; specified by `UpsertListing`, `UpsertIsListed`, `RemoveIsUnlisted`, and by `AliasStore.ListAliases` as the loop's result |
| AliasText.FirstDefinition | lib/zshrcEditor.ts:48-55 | the leftmost line matching `^alias\s+<name>=.*$`: it defines the name, and no earlier line does; the line count when no line does |
| AliasText.FirstDefinitionIffCounted | lib/zshrcEditor.ts:55 | the pattern test succeeds exactly when at least one line defines the name |
| AliasText.NewLineDefines | lib/zshrcEditor.ts:36 | the line `alias name='command'` matches the name's definition pattern |
| AliasText.Expand | lib/zshrcEditor.ts:61 | `replace` inserts a replacement without `$` unchanged |
| AliasText.ExpandDoubleDollar | lib/zshrcEditor.ts:61 | `$$` in a replacement comes out as one `$` |
| AliasText.ReplaceLineVerbatim | lib/zshrcEditor.ts:119 | replacing the match on line `i` by a text without `$` or `\n` changes line `i` only; all other lines and the line count stay |
| AliasText.UpsertAppends | lib/zshrcEditor.ts:62-64 | with no definition, the old text is a prefix of the new one, and the new line's lines follow the old lines |
| AliasText.UpsertOverwrites | lib/zshrcEditor.ts:57-61 | with a definition, the first defining line becomes the new line; every other line stays, later definitions included |
| AliasText.UpsertLines | lib/zshrcEditor.ts:57-64 | the lines after `addAlias` in both branches: first definition replaced, or the new line appended |
| AliasText.UpsertCollapsesDoubleDollar | lib/zshrcEditor.ts:61 | on overwrite, a command with `$$` is written with `$` in the place of the old line |
| AliasText.UpsertFirstDefinition | lib/zshrcEditor.ts:36-64 | after `addAlias`, the first definition of the name is exactly the new line |
| AliasText.UpsertIdempotent | lib/zshrcEditor.ts:36-64 | adding the same alias a second time leaves the text as the first addition left it |
| AliasText.UpsertCountsOneDefinition | lib/zshrcEditor.ts:57-64 | afterwards the number of definitions is 1 if there were none, and unchanged otherwise |
| AliasText.RemoveBlanksLine | lib/zshrcEditor.ts:119 | `removeAlias` turns the first defining line into an empty line; the line count and all other lines stay |
| AliasText.RemoveCountsOneLess | lib/zshrcEditor.ts:119 | removing drops the number of definitions by exactly one |
| AliasText.FormatAll | lib/zshrcEditor.ts:158 | one `name => command` string per entry, in entry order |
| AliasText.ParseAliasLineShape | lib/zshrcEditor.ts:150-157 | conversely, a line gives an entry only when it is `alias<ws><n>=<rest>` with `ws` non-empty white space and `n` non-empty and free of `=`; the entry is the trimmed `ws+n` and the trimmed, unquoted `rest` |
| AliasText.ShapeDefines | lib/zshrcEditor.ts:48-55 | every line `alias<ws><name>=<rest>` with `ws` non-empty white space matches the edit pattern for `name` |
| AliasText.ParseSplit | lib/zshrcEditor.ts:150-157 | on a line `alias<ws><n>=<rest>`, the listing pattern's groups are `ws+n` and `rest` without one opening and one closing quote, both trimmed |
| AliasText.UnquoteQuoted | lib/zshrcEditor.ts:150 | the quotes `addAlias` puts around a command are exactly the ones the listing pattern leaves out |
| AliasText.ParseNewLine | lib/zshrcEditor.ts:150-157 | round trip: the listing reads the line `addAlias` writes back as the trimmed name and the trimmed command |
| AliasText.DefinitionIsListed | lib/zshrcEditor.ts:150 | every line the edit pattern treats as defining a name is a listed entry under the trimmed name |
| AliasText.UpsertListing | lib/zshrcEditor.ts:57-64 | the listing after `addAlias`: the old entries, with the new entry in place of the first definition's, or at the end |
| AliasText.UpsertIsListed | lib/zshrcEditor.ts:154-158 | after `addAlias`, `listAliases` shows `name => command` |
| AliasText.RemoveIsUnlisted | lib/zshrcEditor.ts:117-119 | after `removeAlias`, the listing has lost the entry of the first definition (listed under the trimmed name) and nothing else |
| AliasText.UpsertKeepsLineLocal | lib/zshrcEditor.ts:57-64 | with arguments that are single lines without `$`, `addAlias` keeps the file one the line-level patterns read exactly |
| AliasText.RemoveKeepsLineLocal | lib/zshrcEditor.ts:119 | `removeAlias` keeps the file one the line-level patterns read exactly |
| ZshrcEditor.AddStep | lib/zshrcEditor.ts:19-87 | the checks in the source's order. `INVALID_INPUT` iff an argument is empty; `INVALID_ALIAS` iff the name has no disallowed character; then read, backup and write errors, each iff its call fails. On failure `~/.zshrc` is unchanged. The backup is untouched on every failure before the write. On a failed write, and on success, the backup holds the old `~/.zshrc`. On success, for a name in `EscapesLiterally` without `\n` and a `LineLocal` file, the file is `Upsert` of the old text |
| ZshrcEditor.AddRejectsPlainName | lib/zshrcEditor.ts:29-34 | the plain name `gs` is refused with `INVALID_ALIAS` |
| ZshrcEditor.AddAcceptsSpacedName | lib/zshrcEditor.ts:29-34 | the name `g s` passes the name check, and with no faults is written (into a `LineLocal` file) with a backup of the old text |
| ZshrcEditor.AddTwice | lib/zshrcEditor.ts:19-87 | a second successful add of the same alias leaves `~/.zshrc` unchanged and backs up that same text |
| ZshrcEditor.AddThenList | lib/zshrcEditor.ts:137-172 | after a successful `addAlias`, the listing holds `name => command` |
| ZshrcEditor.RemoveStep | lib/zshrcEditor.ts:89-129 | read error iff the read fails. For a `LineLocal` file: when no line defines the name, nothing changes and the call succeeds; otherwise backup and write errors come in that order, and on success the file has the first definition blanked and the backup is the old text. On failure `~/.zshrc` is unchanged. The backup is untouched on a read or backup error and holds the old text on a write error. The name must be in `LiteralName` |
| ZshrcEditor.AddThenRemove | lib/zshrcEditor.ts:89-129 | adding a name that was undefined and then removing it succeeds and leaves no definition |
| ZshrcEditor.RemoveThenList | lib/zshrcEditor.ts:117-119 | a successful remove takes exactly the first definition's entry out of the parsed listing |
| ZshrcEditor.AliasStore.AddAlias | lib/zshrcEditor.ts:19-87 | for names in `EscapesLiterally` without `\n`, the in-place steps give the outcome and both files of `AddStep`. `Valid()` is kept after a failure, and after a success with `PlainArguments` |
| ZshrcEditor.AliasStore.RemoveAlias | lib/zshrcEditor.ts:89-129 | the in-place steps give the outcome and both files of `RemoveStep`, and keep `Valid()` |
| ZshrcEditor.AliasStore.ListAliases | lib/zshrcEditor.ts:137-172 | a read error when the read fails; otherwise the entries of the matching lines in file order (`Listing`). The files are not touched |
| CliFlow.ValidateFullCommand | lib/cliFlow.ts:57-60 | accepts exactly the commands that are not all white space; otherwise gives the "command required" message |
| CliFlow.ValidateShortAlias | lib/cliFlow.ts:65-74 | "alias required" iff blank; the charset message iff not blank and no disallowed character; accepts iff not blank and some disallowed character |
| CliFlow.HandleStep | lib/cliFlow.ts:79-100 | without confirmation nothing changes. Otherwise the files are those of `addAlias`, success iff `addAlias` succeeds, and a failure is `ALIAS_ADD_ERROR` with the prefixed message |
| CliFlow.HandleUserResponses | lib/cliFlow.ts:79-100 | the method's outcome and the files after it are those of `HandleStep` |
| CliFlow.ValidatedAnswersPassChecks | lib/cliFlow.ts:57-74 | answers both validators accept never hit `INVALID_INPUT` or `INVALID_ALIAS`; with no file fault the add succeeds |
| CliFlow.PromptAndEditorAgree | lib/cliFlow.ts:69-71 | for a name that is not blank, the prompt's charset refusal happens iff `addAlias` throws `INVALID_ALIAS` |
| CliFlow.BlankNameReachesEditor | lib/cliFlow.ts:66 | a non-empty all-white-space name is refused by the prompt, yet passes both of `addAlias`'s input checks |
| CliFlow.FailureIsWrapped | lib/cliFlow.ts:88-94 | any failure of the flow comes after a confirmation, with code `ALIAS_ADD_ERROR` and a message starting with the fixed prefix |

## Left out

- File-system I/O: `readFileSync`, `copyFileSync` and `writeFileSync` are the fields `rc`/`backup` plus three fault flags saying which call throws. The paths in `PATHS` are not modelled.
- AddStep: a failed `writeFileSync` is modelled as leaving `~/.zshrc` unchanged; a partial write is not modelled.
- `console.log` output (success, overwrite and "not found" notices, the numbered listing) is not modelled.
- Prompting (`inquirer`), `runAddFlow`, `handleError`, `setupErrorHandlers` and the command-line entry points are not part of this model.
- AliasStore.AddAlias, AliasStore.RemoveAlias, AliasStore.ListAliases: they require a file whose only line terminator is `\n` and with no open alias line (`LineLocal`). Outside that domain, `^`, `$`, `\s+` and `.` of the patterns would work across lines.
- AddStep, RemoveStep: whether a line defines the name is the line-level reading. So the text written (`Upsert`, `RemoveFirst`) and, for `RemoveStep`, the clauses that depend on a definition existing are promised only for a `LineLocal` file and a name without `\n`. Elsewhere the source's pattern can match across lines (a name holding `\n`, an open alias line), or `$` stops before a `\r` the model keeps in the line. AddTwice, AddThenList, AddThenRemove and RemoveThenList require `LineLocal` of the file for the same reason.
- AddStep: for a name outside `EscapesLiterally` (a `$` followed by `&`, `` ` `` or `'`, such as `a$&`), the text written is not promised. The source's escaped name goes through `ALIAS_PATTERN.replace('{alias}', …)`, which expands those `$` patterns into parts of the template. The resulting pattern is no longer the literal name (for `a$&` it matches `alias a{alias}=…`), and modelling it needs general regular-expression matching.
- AliasStore.AddAlias: requires `EscapesLiterally(name)` for that reason.
- CliFlow.HandleUserResponses: requires `EscapesLiterally` of the answered name, as `AliasStore.AddAlias` does.
- AliasStore.AddAlias: requires a name without `\n`, for the same reason as the line-terminator condition above. `Valid()` is promised afterwards only for arguments that are single lines without `$`.
- RemoveStep, AliasStore.RemoveAlias, AddThenRemove, RemoveThenList: require a name without regular-expression metacharacters (`LiteralName`). The source puts the name into its pattern unescaped, so such a name either matches other names or makes `new RegExp` throw a `SyntaxError`.
- Strings are sequences of Unicode scalar values, not UTF-16 code units. This changes nothing for the character class `[a-zA-Z0-9_가-힣.]`: a surrogate half is outside it just as the whole character is.
- The `async`/`await` around `addAlias` in `handleUserResponses` is not modelled. Concurrency between several processes editing `~/.zshrc` is not modelled.
