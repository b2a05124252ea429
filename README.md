# Cucumber autocomplete language server: step engine, page objects, version bump

This project is a Dafny model of the core of a Cucumber (Gherkin) language
server, with proofs about it. Three parts are modelled.

- **`StepsHandler`** (`gserver/src/steps.handler.ts`) reads step-definition
  files into a catalogue of steps. It first turns every declared pattern into
  a regular-expression text and a display text. It keeps the catalogue free
  of duplicate ids. It counts how often feature files use each step, and
  indexes the steps by Gherkin keyword and by text prefix. On top of the
  catalogue it answers three questions for a feature line: a validation
  warning, go-to-definition, and completion with a computed insert text.
- **`PagesHandler`** (`gserver/src/pages.handler.ts`) loads configured page
  files and the page objects named in them. It then serves the
  `"page"."object"` notation in feature lines: cursor position, definition,
  completion and validation.
- **The interactive release script** (`scripts/interactive-release.js`):
  `incrementVersion`, `validateVersion` and the menu choice of
  `selectVersionType`.

Patterns that are fixed in the source are written out as scanners that compute
exactly what `String.prototype.replace`/`match`/`search` compute on them. That
covers the parameter types, optional text, alternatives, Cucumber
expressions, outline placeholders, the snippet expression, the `"…"."…"`
guard and the quote expressions of the page handler.

The regular-expression engine and the helpers from `./util`, `./gherkin` and
`doctrine` are not part of this model. They are fields of one `Types.Host`
value that every operation receives: `matches`, `compiles`, `gherkinLine`,
`stepDeclaration`, `escapeRegExp`, `md5`, `clearComments` and the others.

File-system and glob access is replaced by lists of `(path, content)` files and
feature texts supplied by the caller.

Modules:

- `Wrappers`, `Strings`: JavaScript string operations.
- `Types`: the shared data model and the `Host`.
- `StepPatterns`, `PartialPattern`, `InsertText`: the pattern pipeline.
- `Outline`, `Comments`, `StepFiles`, `StepIndex`: the catalogue.
- `Steps`: the `StepsHandler` class and its queries.
- `Pages`: `PagesHandler`.
- `Release`: the version bump.

## Model

| member | source | states |
|---|---|---|
| StepPatterns.LiteralParameterReplacesEvery | gserver/src/steps.handler.ts:294-304 | A string custom parameter replaces every occurrence. The step is its parameter-free pieces joined by the parameter, and the result is the same pieces joined by the value. |
| StepPatterns.ApplyCustomParameter | gserver/src/steps.handler.ts:299-302 | `step.split(parameter).join(value)` for one custom parameter. For a string parameter, `LiteralParameterReplacesEvery` shows that every occurrence is replaced by the value and the text between occurrences is kept. A RegExp parameter splits through the host's `patternSplit`. |
| StepPatterns.HandleCustomParameters | gserver/src/steps.handler.ts:294-304 | Every configured parameter is applied, in configuration order. With none configured, the step is returned as it is. `CustomParametersInOrder` states the order. |
| StepPatterns.CustomParametersInOrder | gserver/src/steps.handler.ts:299-302 | One more parameter at the end of the configuration is applied to the text the earlier ones produced. |
| StepPatterns.LowerRun | gserver/src/steps.handler.ts:318 | The run of `[a-z]` from a position: every character in it is a lower-case letter, and the next one is not. |
| StepPatterns.LetterRun | gserver/src/steps.handler.ts:319 | The run of `[a-zA-Z]` from a position, maximal in the same way. |
| StepPatterns.AlternativesEnd | gserver/src/steps.handler.ts:319 | The greedy end of `(?:\/([a-zA-Z]+))+` lies between its start and the end of the text. |
| StepPatterns.SlashToBar | gserver/src/steps.handler.ts:379-381 | `match.replace(/\//g, '\|')`: same length, every `/` becomes `\|`, and every other character is kept. |
| StepPatterns.ProcessCommonPatterns | gserver/src/steps.handler.ts:372-388 | Optional text, then alternatives, then Cucumber expressions, in that order. `CommonPatternsOfOptional`: `(word)` becomes `(word)?`. `CommonPatternsOfAlternatives`: `a/b/c` becomes `(a\|b\|c)`. `CommonPatternsOfName`: a bare `{name}` becomes `.*` and the character before it is kept. `CommonPatternsAbsent`: a step without `(`, `/` or `{` passes unchanged. |
| StepPatterns.PatternText | gserver/src/steps.handler.ts:413-414 | Parameter types, then common patterns, before escaping. `PatternOfParameterStep`: a step with one parameter type, and no other `{`, `(` or `/`, gets that type's fragment in place of the name. `PatternOfIntStep`: `I have {int} items` gives `I have -?\d+ items`. `PlainStepIsItsOwnPattern`: a plain step is its own pattern text. |
| StepPatterns.PlainStepIsItsOwnPattern | gserver/src/steps.handler.ts:360-388 | A step without `{`, `(` or `/` passes parameter types and common patterns unchanged. |
| StepPatterns.ProcessParameterTypes | gserver/src/steps.handler.ts:360-369 | The parameter-type replacements in table order, with the Ruby interpolation `#{…}` last. `ParameterTypeReplaced`: each name of the table becomes its fragment, so `{int}` becomes `-?\d+` and `{float}` becomes `-?\d*\.?\d+`. `RubyParameterReplaced`: `#{w}` becomes `.*`. `ParameterTypesAbsent`: a step without `{` passes unchanged. |
| StepPatterns.ReplaceEachAbsent | gserver/src/steps.handler.ts:307-315 | The parameter-type replacements leave a text unchanged when it lacks the first character of every parameter. (Also at lines 360-369.) |
| StepPatterns.RubyInterpolation | gserver/src/steps.handler.ts:314 | `/#{(.*?)}/g` replaced by `.*`. `RubyReplaced`: a `#{w}` whose `w` holds no `}` or line break becomes `.*`, and the text around it is kept. `RubyAbsent`: the identity on text without `{`. |
| StepPatterns.RubyAbsent | gserver/src/steps.handler.ts:314 | `#{…}` replacement is the identity on text without `{`. |
| StepPatterns.OptionalText | gserver/src/steps.handler.ts:376 | `/\(([a-z]+)\)/g` replaced by `($1)?`. `OptionalReplaced`: `(word)` of lower-case letters becomes `(word)?`, and the text around it is kept. `OptionalAbsent`: the identity on text without `(`. `OptionalOnlyAddsMarks`: it only inserts `?`. |
| StepPatterns.OptionalAbsent | gserver/src/steps.handler.ts:318 | Optional-text replacement is the identity on text without `(`. (Also at line 376.) |
| StepPatterns.AlternativeText | gserver/src/steps.handler.ts:379-382 | `/([a-zA-Z]+)(?:\/([a-zA-Z]+))+/g` with each match put in parentheses and its `/` turned into `\|`. `AlternativeReplaced`: two or more letter words joined by `/` become `(a\|b\|c)`, when no letter or `/` touches the run. `AlternativeAbsent`: the identity on text without `/`. |
| StepPatterns.AlternativeAbsent | gserver/src/steps.handler.ts:319 | Alternative-text replacement is the identity on text without `/`. (Also at lines 379-381.) |
| StepPatterns.CucumberExpressions | gserver/src/steps.handler.ts:385 | `{name}` becomes `.*` when it is not right after a backslash and not followed by a digit or a comma; the character before it is kept. `CucumberReplaced`: a bare `{w}`, with no `}` or line break in `w`, becomes `.*`, and the character before it is kept. `CucumberAbsent`: the identity on text without `{`. |
| StepPatterns.CucumberAbsent | gserver/src/steps.handler.ts:320 | Cucumber-expression replacement is the identity on text without `{`. (Also at line 385.) |
| StepPatterns.OptionalOnlyAddsMarks | gserver/src/steps.handler.ts:318 | `(word)` → `(word)?` only inserts `?`: with every `?` deleted, input and output are equal. (Also at line 376.) |
| StepPatterns.ParameterTypeReplaced | gserver/src/steps.handler.ts:360-369 | A text with one parameter-type name of the table, and no other `{`, has that name replaced by its fragment and the rest kept. (The table is at lines 307-313.) |
| StepPatterns.RubyReplaced | gserver/src/steps.handler.ts:314 | `#{w}` becomes `.*` when `w` holds no `}` or line break and the text on either side holds no `{`; the text around it is kept. |
| StepPatterns.RubyParameterReplaced | gserver/src/steps.handler.ts:360-369 | Under the whole parameter-type pass, `#{w}` becomes `.*` unless `{w}` is itself a parameter-type name, which is replaced first. |
| StepPatterns.OptionalReplaced | gserver/src/steps.handler.ts:376 | `(word)` of one or more lower-case letters becomes `(word)?` in a text with no other `(`; the text around it is kept. |
| StepPatterns.AlternativeReplaced | gserver/src/steps.handler.ts:379-382 | Two or more letter words joined by `/` become the same words joined by `\|` in parentheses, when the text around them has no `/` and no letter touches the run. |
| StepPatterns.CucumberReplaced | gserver/src/steps.handler.ts:385 | A bare `{w}` becomes `.*` and the character before it is kept, when that character is not a backslash (or the name opens the text), `w` does not start with a digit or a comma, and `w` holds no `}` or line break. |
| StepPatterns.CommonPatternsOfOptional | gserver/src/steps.handler.ts:372-388 | The three common-pattern passes together turn `(word)` into `(word)?` when the text has no other `(`, `/` or `{`. |
| StepPatterns.CommonPatternsOfAlternatives | gserver/src/steps.handler.ts:372-388 | The three passes together turn `a/b/c` into `(a\|b\|c)` when the text has no `(`, `{` or other `/`. |
| StepPatterns.CommonPatternsOfName | gserver/src/steps.handler.ts:372-388 | The three passes together turn a bare `{name}` into `.*`, keeping the character before it, when the text has no `(`, `/` or other `{`. |
| StepPatterns.PatternOfParameterStep | gserver/src/steps.handler.ts:413-414 | The pattern text of a step with one parameter-type name, and no other `{`, `(` or `/`, is the step with that name replaced by its fragment, for the names whose fragment has no `(` or `/` (all but `{string}`). |
| StepPatterns.PatternOfIntStep | gserver/src/steps.handler.ts:413-414 | The step `I have {int} items` has the pattern text `I have -?\d+ items`. |
| StepPatterns.RegTextForStep | gserver/src/steps.handler.ts:406-417 | The pattern text escaped by the host's `escapeRegExp`, with no anchors. The cached variant (391-404) computes the same text. `StepFiles.PartialRegTextOrFull` falls back to it. |
| StepPatterns.RestoreChanges | gserver/src/steps.handler.ts:350-353 | For each change in table order, the first escaped occurrence is turned back into the change (a string pattern replaces once). `RestoreChangesInOrder` states the order. |
| StepPatterns.RestoreChangesInOrder | gserver/src/steps.handler.ts:350-353 | One more change at the end of the table restores its first escaped occurrence in the text the earlier changes left. |
| StepPatterns.RegTextForPureStep | gserver/src/steps.handler.ts:339-357 | In pure-text mode the expression text is always anchored: it starts with `^` and ends with `$`. |
| StepPatterns.RegTextFor | gserver/src/steps.handler.ts:602-604 | The pure-text or the ordinary expression text, chosen by `pureTextSteps`. In pure-text mode it is anchored (`RegTextForPureStep`). |
| StepPatterns.TextForStep | gserver/src/steps.handler.ts:471-479 | The display text contains no backslash. |
| StepPatterns.TextOfAnchoredStep | gserver/src/steps.handler.ts:471-479 | For a backslash-free `x`, the display text of `^x$` is `x`: only anchors and backslashes are dropped. |
| StepPatterns.DescForStep | gserver/src/steps.handler.ts:481-489 | A description has no white space at either end, and trimming it again changes nothing. |
| StepPatterns.BodyCutOfLine | gserver/src/steps.handler.ts:483 | On a line without line terminators, `replace(/\{.*/, '')` leaves exactly the text before the first `{`, or the whole line when it has none. |
| StepPatterns.DescOfLine | gserver/src/steps.handler.ts:481-489 | On one line, the description is the trimmed text before the first `{`, and it contains no `{`. |
| StepPatterns.DescIdempotent | gserver/src/steps.handler.ts:481-489 | On one line, the description of a description is itself. |
| StepPatterns.NextParen | gserver/src/steps.handler.ts:494 | The first parenthesis at or after a position, with none skipped. |
| StepPatterns.FindGroup | gserver/src/steps.handler.ts:494-497 | The search for `(\([^)()]+\|[^()]+\))`: the group found is a match, and no match starts earlier. None means no match exists. |
| StepPatterns.GroupStartsOnlyAtParen | gserver/src/steps.handler.ts:494 | When the scanner rejects a position, no group starts there. |
| StepPatterns.GroupAlternatives | gserver/src/steps.handler.ts:498-502 | The alternatives (after dropping `?:`, split at `\|`) are at least one, each shorter than the group and without parentheses. |
| StepPatterns.FirstOccurrenceIsGroup | gserver/src/steps.handler.ts:503-505 | `step.replace(matchRes, v)` replaces the group that the search found, because any earlier copy of its text would itself be an earlier match. |
| StepPatterns.CopyOfGroup | gserver/src/steps.handler.ts:494 | A copy of a group's text elsewhere is also a group. |
| StepPatterns.StepTextInvariants | gserver/src/steps.handler.ts:491-510 | Expansion, with each alternative inserted literally, returns at least one text. Every text it returns is free of alternation groups and no longer than the step. (See "## Findings" for the code as written.) |
| StepPatterns.InvariantsAsWrittenLoop | gserver/src/steps.handler.ts:504 | As written, `step.replace(matchRes, 'a$&')` on `p(a$&\|b)` gives `pa(a$&\|b)`: the group comes back, one character further on, so the recursion never reaches a step without groups. |
| StepPatterns.InvariantsLiteralStops | gserver/src/steps.handler.ts:504 | Inserted literally, the alternative `a$&` leaves `pa$&`, which has no group, so the recursion stops there. |
| StepPatterns.ExpandEach | gserver/src/steps.handler.ts:503-507 | The same for the concatenated expansions of each alternative, which are at least one when there is an alternative. |
| StepPatterns.AbsentFirstChar | gserver/src/steps.handler.ts:301 | A pattern whose first character is absent from the text does not occur in it. |
| Strings.SplitPiecesAvoid | gserver/src/steps.handler.ts:301 | No piece of `split(t)` contains `t`. |
| Strings.SplitPiecesShort | gserver/src/steps.handler.ts:502 | Every piece of a split is no longer than the text and made of its characters. |
| StepPatterns.RemoveCharConcat | gserver/src/steps.handler.ts:473 | Deleting a character distributes over concatenation. |
| StepPatterns.RemoveAbsentChar | gserver/src/steps.handler.ts:473 | Deleting an absent character changes nothing. |
| StepPatterns.MarkedPiece | gserver/src/steps.handler.ts:376 | One optional-text rewrite preserves the text up to `?` marks. |
| PartialPattern.Tok | gserver/src/steps.handler.ts:419-461 | The tokenizer from any state yields at least one part (the last `push` at `i === text.length`). |
| PartialPattern.Parts | gserver/src/steps.handler.ts:427-460 | The parts `getPartialRegParts` cuts from a transformed text. `PartsJoin` shows that, joined with single spaces, they give the text back; `PartsShape` shows they are the text cut at its top-level spaces. |
| PartialPattern.SplitParts | gserver/src/steps.handler.ts:427-460 | The index loop with `currString`, `bracesMode` and the two counters returns `Parts(text)`. |
| PartialPattern.PartialRegParts | gserver/src/steps.handler.ts:419-461 | `getPartialRegParts` returns the parts of the expression text that the pure or plain pipeline gives. |
| PartialPattern.PartialRegText | gserver/src/steps.handler.ts:463-469 | The parts of the step's expression text, each wrapped as `(part\|$)`, joined by `( \|$)` and anchored with `^`. The shape is stated by `PrefixPattern`, and `StepFiles.PartialRegTextOrFull` uses it when it compiles. |
| PartialPattern.PrefixPattern | gserver/src/steps.handler.ts:463-469 | The relaxed pattern starts with `^(` and ends with `\|$)`. |
| PartialPattern.WrapParts | gserver/src/steps.handler.ts:466 | Each part `p` becomes `(p\|$)`, in order. |
| PartialPattern.JoinEnds | gserver/src/steps.handler.ts:467 | Joined parts keep the first part's opening and the last part's closing. |
| PartialPattern.TokJoin | gserver/src/steps.handler.ts:419-461 | Joining the parts with single spaces reproduces the text in progress plus the unread text. |
| PartialPattern.PartsJoin | gserver/src/steps.handler.ts:419-461 | Joining the parts with single spaces reproduces the transformed input exactly. |
| PartialPattern.TokShape | gserver/src/steps.handler.ts:436-459 | Every space kept inside a part lies in an unbalanced parenthesised region, and every part but the last ended outside one. |
| PartialPattern.PartsShape | gserver/src/steps.handler.ts:419-461 | The same for the parts of a whole text: they are the text cut at its top-level spaces. |
| InsertText.FirstRejected | gserver/src/steps.handler.ts:518-531 | The first part whose accumulated prefix pattern compiles and rejects the typed text, with every earlier one accepting. None means no part rejects. |
| InsertText.CutAtRejected | gserver/src/steps.handler.ts:514-531 | The loop with `shift`, `push` and `break` returns the step when no probe rejects, and otherwise the parts from the first rejecting one, joined by spaces. |
| InsertText.TailCompletesPattern | gserver/src/steps.handler.ts:518-531 | The accepted parts, a space and the inserted tail rebuild the whole pattern text, and every part before the cut was accepted. |
| InsertText.AcceptedStepInsertedWhole | gserver/src/steps.handler.ts:514-531 | When every probe accepts the typed text, the step is returned unchanged. |
| InsertText.SnippetItem | gserver/src/steps.handler.ts:543 | `(?:\\.\|\.\|\[[^\]]+\])` matched at a position ends after it, within the text. |
| InsertText.SnippetQuantifier | gserver/src/steps.handler.ts:543 | `(?:\*\|\+\|\{[^}]+\})` likewise. |
| InsertText.SnippetCore | gserver/src/steps.handler.ts:543 | Item, quantifier and optional `)` likewise. |
| InsertText.SnippetAt | gserver/src/steps.handler.ts:543 | A match of the whole snippet expression at a position ends after it. |
| InsertText.SpansAreGlobalMatches | gserver/src/steps.handler.ts:542-544 | The spans of `match(/…/g)` are in order, disjoint, and each is a match where it starts. |
| InsertText.SpansCoverMatches | gserver/src/steps.handler.ts:542-544 | No match is skipped: every position where the expression matches lies inside a span. |
| InsertText.Decorate | gserver/src/steps.handler.ts:533-562 | The placeholder loop, or the `"[^"]+"` → `""` shortening, then the pure-text clean-up, computes `Decorated`. |
| InsertText.InsertTextFor | gserver/src/steps.handler.ts:512-565 | `getCompletionInsertText`: the step's text cut at its first part the typed text rejects, then decorated. `CutAtRejected`, `TailCompletesPattern` and `AcceptedStepInsertedWhole` state the cut; `CompletionInsertText` shows the method returns it. |
| InsertText.CompletionInsertText | gserver/src/steps.handler.ts:512-565 | `getCompletionInsertText` returns the cut tail, decorated. |
| InsertText.PureInsertHasNoBackslash | gserver/src/steps.handler.ts:556-562 | In pure-text mode the inserted text carries no backslash. |
| InsertText.PlainInsertUnchanged | gserver/src/steps.handler.ts:551-554 | Without snippets or pure text, a tail without `"[^"]+"` is inserted unchanged. |
| Outline.SplitCells | gserver/src/steps.handler.ts:250-251 | `split(/\s*\|\s*/)` gives one cell per `\|`-separated piece. |
| Outline.Inner | gserver/src/steps.handler.ts:250-251 | `slice(1, -1)`: all but the first and last element, or nothing when there are fewer than two. |
| Outline.AddRow | gserver/src/steps.handler.ts:252-256 | The `forEach` over the names from index j. `AddRowSets` states which names it sets and which it leaves; `AddRowValuesNonEmpty` shows it stores only non-empty values. |
| Outline.AddRowValuesNonEmpty | gserver/src/steps.handler.ts:252-256 | Only non-empty values are stored. |
| Outline.AddRowSets | gserver/src/steps.handler.ts:252-256 | A row leaves names it does not mention unchanged. A name it mentions once is set to that column's value when the value is not empty. |
| Outline.CollectVars | gserver/src/steps.handler.ts:248-259 | The `reduce` over the lines from index i. A header counts when the line two below it exists and is not empty. `CollectVarsNonEmpty` shows it stores only non-empty values. |
| Outline.CollectVarsNonEmpty | gserver/src/steps.handler.ts:247-260 | The whole reduce stores only non-empty values. |
| Outline.OutlineVars | gserver/src/steps.handler.ts:247-260 | The variables of every `Examples:` table, a later table overriding an earlier one. `OutlineValuesNonEmpty` shows every value is non-empty. |
| Outline.OutlineValuesNonEmpty | gserver/src/steps.handler.ts:247-260 | Every outline variable has a non-empty value, so the truthiness test `outlineVars[key]` means the key is defined. |
| Outline.Keys | gserver/src/steps.handler.ts:267 | The placeholder keys with `<` and `>` removed, one per placeholder. (Also at line 276.) |
| Outline.Placeholders | gserver/src/steps.handler.ts:263 | The matches of `/<.*?>/g`, left to right. `PlaceholdersShape` states the shape of each match. |
| Outline.PlaceholdersShape | gserver/src/steps.handler.ts:263 | Every match of `/<.*?>/g` starts with `<` and ends with `>`, with no `>` or line terminator inside. |
| Outline.Substitute | gserver/src/steps.handler.ts:266-281 | The `reduce` over the placeholder keys, plain or quoted. `SubstituteUndefined` shows that undefined keys change nothing, and `SubstituteOne` that a defined key replaces the first `<key>` of the line. |
| Outline.SubstituteUndefined | gserver/src/steps.handler.ts:266-281 | Placeholders with no defined value leave the line unchanged. |
| Outline.SubstituteOne | gserver/src/steps.handler.ts:266-281 | A defined key replaces the first `<key>` of the line with its value, plain or in double quotes. The value is read as `String.prototype.replace` reads a string replacement: `$$` gives `$`, `$&` the placeholder, `` $` `` the text before it and `$'` the text after it. |
| Outline.SubstituteOneLiteral | gserver/src/steps.handler.ts:271 | A value without `$` is inserted as it is: the first `<key>` becomes the value. |
| Outline.SubstituteDollarDollar | gserver/src/steps.handler.ts:271 | The value `$$` inserts a single `$` in place of the placeholder. |
| Strings.Substitution | gserver/src/steps.handler.ts:271 | The replacement text of `replace` with a string pattern (GetSubstitution, ECMA-262 section 22.1.3.19.1). `Outline.SubstituteDollarDollar` shows `$$` gives `$`. |
| Strings.ReplaceFirstJs | gserver/src/steps.handler.ts:271 | The first occurrence replaced by the substitution of the value. With no occurrence the text is unchanged. `ReplaceFirstJsLiteral` shows that a `$`-free value is put in literally. |
| Strings.ReplaceFirstJsLiteral | gserver/src/steps.handler.ts:271 | For a replacement without `$`, `replace` with a string is the plain first-occurrence replacement. |
| Strings.SplitLines | gserver/src/steps.handler.ts:641 | `split(/\r?\n/g)`: at least one line. `SplitLinesNoNewline`, `SplitLinesSingle` and `SplitLinesJoin` state the lines. |
| Strings.SplitLinesNoNewline | gserver/src/steps.handler.ts:641 | No line holds a `\n`. |
| Strings.SplitLinesSingle | gserver/src/steps.handler.ts:641 | A text without `\n` is a single line, itself. |
| Strings.SplitLinesJoin | gserver/src/steps.handler.ts:641 | Without `\r`, the lines are the pieces between the `\n`s, and joining them with `\n` gives the text back. |
| Comments.NextNonBlank | gserver/src/steps.handler.ts:659-662 | The first line at or after a position that is not blank, or the end; every line skipped is blank. |
| Comments.Scan | gserver/src/steps.handler.ts:647-674 | The loop rounds from line i on. `ScanRound` ties one round to the loop body, and `ScanWellPlaced` shows every round keeps each stored comment at a non-blank line. |
| Comments.CommentsOf | gserver/src/steps.handler.ts:640-677 | The comments of a file. `CommentsWellPlaced`, `CommentsAfterClosing` and `CommentsOfBlock` state where each entry is stored (the first non-blank line after a `*/` line) and what it holds (the lines from the block's `/*` line to its `*/` line). |
| Comments.MultiLineComments | gserver/src/steps.handler.ts:640-677 | The loop over lines, with its inner `while` over blank lines, computes the fold `CommentsOf`. |
| Comments.ScanRound | gserver/src/steps.handler.ts:648-673 | One round of the loop body moves `current`, `commentMode` and `comments` to the state `ScanLine` gives for the line. |
| Comments.SkipBlankLines | gserver/src/steps.handler.ts:658-662 | The inner `while` stops at the first non-blank line at or after its start, or at the end. |
| Comments.ScanWellPlaced | gserver/src/steps.handler.ts:647-674 | Every round of the loop keeps each stored comment at a non-blank line, ending with a newline. |
| Comments.ScanLineWellPlaced | gserver/src/steps.handler.ts:654-670 | The same for one round. |
| Comments.StoreWellPlaced | gserver/src/steps.handler.ts:665-667 | The same for one store. |
| Comments.CommentsWellPlaced | gserver/src/steps.handler.ts:640-677 | Every comment is keyed by an existing non-blank line, and its text ends with a newline. |
| Comments.ScanAfterClosing | gserver/src/steps.handler.ts:654-667 | Every round keeps each key at the next non-blank line after some `*/` line. |
| Comments.CommentsAfterClosing | gserver/src/steps.handler.ts:640-677 | A comment is stored only at the first non-blank line after a closing line. When only blank lines follow, nothing is stored. |
| Comments.BlockStart | gserver/src/steps.handler.ts:651-672 | The block a `*/` line closes starts at the nearest earlier `/*` line, when no other marker lies in between. Otherwise it is the `*/` line alone. |
| Comments.RunStores | gserver/src/steps.handler.ts:654-667 | Once the loop has passed a `*/` line followed by a non-blank line, that line's key holds the block's text. |
| Comments.CommentsOfBlock | gserver/src/steps.handler.ts:648-673 | Conversely, every `*/` line with a non-blank line after it stores an entry at the first such line. The entry is the lines from the block's `/*` line to the `*/` line, each followed by a newline. |
| Comments.BlankIsTrimmedEmpty | gserver/src/steps.handler.ts:659 | A line is blank exactly when `trim()` leaves it empty. |
| StepFiles.PartialRegTextOrFull | gserver/src/steps.handler.ts:91-112 | The relaxed pattern when it compiles; otherwise the full (non-pure) expression text. |
| StepFiles.MakeStep | gserver/src/steps.handler.ts:612-637 | A step's id is `'step'+md5(text)` and its count is the stored count for that id. Its text is the variant itself (pure mode) or its display text. Its expression is the variant's expression; `desc`, `def`, `gherkin` and `documentation` are passed through. |
| StepFiles.MakeSteps | gserver/src/steps.handler.ts:598-637 | `filter` then `map` yields at most one step per variant. |
| StepFiles.MakeStepsBuilt | gserver/src/steps.handler.ts:612-637 | Every step produced is built from a variant with the declaration's description, location, keyword type and documentation, its id and count taken from its text. |
| StepFiles.MakeStepsComplete | gserver/src/steps.handler.ts:599-611 | Variants whose expression does not compile are dropped, and every variant that compiles has its step. |
| StepFiles.DocumentationOf | gserver/src/steps.handler.ts:595-597 | The documentation is the comment's when a non-empty comment is stored for the line, else the full step line. |
| StepFiles.MakeStepsOne | gserver/src/steps.handler.ts:598-637 | One compiling variant gives exactly its step. |
| StepFiles.StepsOf | gserver/src/steps.handler.ts:583-638 | Every step carries the declaration line's description. Its documentation is the comment's when a non-empty comment is stored for the line, else the line. Without invariants there is at most one step. |
| StepFiles.DeclarationAt | gserver/src/steps.handler.ts:698-716 | A line that declares a step is used alone. Otherwise the line joined with the non-empty next line is used, only when the joined text declares a step and the next line alone does not. |
| StepFiles.LineSteps | gserver/src/steps.handler.ts:717-737 | Steps found at a line are located in that file, at that line. |
| StepFiles.StepsUpTo | gserver/src/steps.handler.ts:695-739 | The reduce over the first n lines gives steps located before line n. |
| StepFiles.FileSteps | gserver/src/steps.handler.ts:679-740 | Every step of a file is located in that file, at a line of its comment-free text. |
| StepFiles.ShortBodySkipped | gserver/src/steps.handler.ts:720-723 | A declaration whose trimmed body is shorter than three characters contributes no step. |
| StepFiles.SingleLineDeclaration | gserver/src/steps.handler.ts:704-736 | A usable single-line declaration without invariants whose expression compiles gives exactly the one step of its pattern. It sits at (line, length of the text before the keyword), with the line's description, the keyword's type and the line's documentation. |
| StepFiles.Paths | gserver/src/steps.handler.ts:771-776 | The set of paths is exactly the paths of the files. |
| StepFiles.UniqueByPath | gserver/src/steps.handler.ts:771-776 | The `Set` of found files keeps each path once and invents none. |
| StepFiles.AllSteps | gserver/src/steps.handler.ts:778-789 | The steps of the found files, file after file. `AllStepsStep` shows that one more file appends its steps after the earlier ones. |
| StepFiles.AllStepsStep | gserver/src/steps.handler.ts:778-789 | The steps of one more file are appended after the earlier ones. |
| StepFiles.Catalog | gserver/src/steps.handler.ts:766-794 | The catalogue `populate` builds. `CatalogIds` and `CatalogKeepsFirst` show that ids are distinct, every declared id is kept, and the first step found with an id wins. |
| StepFiles.CatalogIds | gserver/src/steps.handler.ts:766-794 | The catalogue has pairwise distinct ids, holds only steps of the found files, and keeps every id they declare. |
| StepFiles.CatalogKeepsFirst | gserver/src/steps.handler.ts:778-789 | Of several steps sharing an id, the first one found is kept. |
| StepIndex.Ids | gserver/src/steps.handler.ts:782-784 | The id set is exactly the ids of the steps. |
| StepIndex.IdsAppend | gserver/src/steps.handler.ts:782-784 | The ids of a concatenation are the union of the ids. |
| StepIndex.DedupAppend | gserver/src/steps.handler.ts:778-789 | De-duplicating file after file equals de-duplicating the whole list, with each file seeing the ids before it. |
| StepIndex.DedupAppendFresh | gserver/src/steps.handler.ts:778-789 | The same, starting from no seen ids (`elementsHash = {}`). |
| StepIndex.Dedup | gserver/src/steps.handler.ts:781-787 | The `reduce` that keeps a step when its id is neither seen nor kept yet. `DedupDistinct`, `DedupKeepsFirst` and `DedupIds` state what it keeps. |
| StepIndex.DedupDistinct | gserver/src/steps.handler.ts:781-787 | Kept steps have pairwise distinct ids, none seen before, and each is an input step. |
| StepIndex.DedupKeepsFirst | gserver/src/steps.handler.ts:781-787 | The first step with an unseen id is kept. |
| StepIndex.DedupIds | gserver/src/steps.handler.ts:781-787 | The kept ids are exactly the input ids not seen before. |
| StepIndex.IndicesOf | gserver/src/steps.handler.ts:153-164 | The positions with a given key, all below the bound. |
| StepIndex.BucketFrom | gserver/src/steps.handler.ts:153-164 | Every bucket holds only positions already visited. |
| StepIndex.BucketFromNext | gserver/src/steps.handler.ts:156-163 | One `forEach` round appends the position to its key's bucket, creating it if needed (`get(...) \|\| []`, `push`, `set`). |
| StepIndex.BucketBy | gserver/src/steps.handler.ts:149-165 | All bucket positions are catalogue positions. |
| StepIndex.BucketExact | gserver/src/steps.handler.ts:149-165 | A bucket exists exactly for the keys that occur, and holds exactly that key's positions in order. |
| StepIndex.StepsAt | gserver/src/steps.handler.ts:915 | The steps at a list of positions, one per position. (Also at line 920.) |
| StepIndex.GherkinKeys | gserver/src/steps.handler.ts:156 | Each step's Gherkin type, in order. |
| StepIndex.PrefixKeys | gserver/src/steps.handler.ts:161 | Each step's lower-cased three-character prefix, in order. |
| StepIndex.OfType | gserver/src/steps.handler.ts:927-938 | A filter by type: only steps of the list with that type. |
| StepIndex.OfPrefix | gserver/src/steps.handler.ts:161 | A filter by prefix: only steps of the list with that prefix key. |
| StepIndex.TypeIndicesSelect | gserver/src/steps.handler.ts:156-158 | The steps at a type's positions are that type's steps, in order. |
| StepIndex.OfTypeStep | gserver/src/steps.handler.ts:927-938 | The type filter of one more step. |
| StepIndex.PrefixIndicesSelect | gserver/src/steps.handler.ts:161-164 | The steps at a prefix's positions are that prefix's steps, in order. |
| StepIndex.OfPrefixStep | gserver/src/steps.handler.ts:161-164 | The prefix filter of one more step. |
| StepIndex.StepsAtAppend | gserver/src/steps.handler.ts:158 | Selection distributes over appended positions. (Also at line 164.) |
| StepIndex.TypeBucketIsFilter | gserver/src/steps.handler.ts:149-165 | Every step is in the bucket of its own type, and that bucket holds exactly the steps of that type, in catalogue order. A type without a bucket has none. |
| StepIndex.PrefixBucketIsFilter | gserver/src/steps.handler.ts:149-165 | The bucket of a prefix holds exactly the steps with that prefix, in catalogue order. |
| StepIndex.Bump | gserver/src/steps.handler.ts:193-199 | One increment raises that id's count by one (from 0 when absent) and no other id's count. |
| StepIndex.Tally | gserver/src/steps.handler.ts:180-187 | One `incrementElementCount` per found id, in order. `TallyCounts` shows each id's count grows by its number of occurrences. |
| StepIndex.TallyAppend | gserver/src/steps.handler.ts:177-189 | Counting two lists of ids is counting the first, then the second. |
| StepIndex.TallyCounts | gserver/src/steps.handler.ts:175-203 | Each id's count grows by exactly the number of times it occurs. |
| StepIndex.WithCounts | gserver/src/steps.handler.ts:189 | `el.count = getElementCount(el.id)` for every step, and nothing else changes. |
| StepIndex.WithCountsKeys | gserver/src/steps.handler.ts:189 | Setting counts changes neither types nor texts, so the buckets stay valid. |
| StepIndex.FirstAccepting | gserver/src/steps.handler.ts:796-804 | The first position whose step has the requested type (if any) and matches the text; none earlier does. None means none does. |
| StepIndex.FindStep | gserver/src/steps.handler.ts:796-804 | `find`: None exactly when no step accepts. Otherwise the step at the first accepting position. |
| StepIndex.Insert | gserver/src/steps.handler.ts:950 | Insertion adds exactly one element. |
| StepIndex.SortByCount | gserver/src/steps.handler.ts:950 | The sorted list is a permutation of the input. |
| StepIndex.InsertDescending | gserver/src/steps.handler.ts:950 | Insertion keeps counts non-increasing. |
| StepIndex.SortDescending | gserver/src/steps.handler.ts:950 | `sort((a, b) => b.count - a.count)`: counts are non-increasing. |
| StepIndex.InsertStable | gserver/src/steps.handler.ts:950 | Insertion keeps the relative order of equal counts. |
| StepIndex.SortStable | gserver/src/steps.handler.ts:950 | The sort is stable: steps with the same count keep their order. |
| StepIndex.SliceTo | gserver/src/steps.handler.ts:951 | `slice(0, limit)`, with a negative limit counting from the end. |
| StepIndex.Matching | gserver/src/steps.handler.ts:942-949 | Exactly the candidates whose relaxed pattern matches the typed text. |
| StepIndex.CompletionLimit | gserver/src/steps.handler.ts:75 | `maxCompletionItems \|\| 50`. (Also at line 951.) |
| StepIndex.Ranked | gserver/src/steps.handler.ts:942-951 | The matching candidates, most used first, cut at the limit. `RankedProperties` and `Steps.RankedNonEmpty` state it. |
| StepIndex.RankedProperties | gserver/src/steps.handler.ts:942-951 | Offered steps are matching candidates, ordered by non-increasing count, and never more than the limit. Below the limit every matching candidate is offered. |
| Steps.GherkinMatch | gserver/src/steps.handler.ts:262-292 | A line without placeholders is matched as it is. Otherwise the quoted substitution's match is chosen exactly when it exists, its step text is non-empty and some catalogue step accepts that text. In every other case the plain substitution's match is chosen. |
| Steps.GherkinMatchUndefined | gserver/src/steps.handler.ts:262-292 | Placeholders that the document does not define leave the match of the line unchanged. |
| Steps.NearestStrict | gserver/src/steps.handler.ts:846-867 | Always Given, When, Then or Other. `NearestStrictIsLast` shows it is the type of the last Given/When/Then line, or Other when there is none. |
| Steps.NearestStrictIsLast | gserver/src/steps.handler.ts:846-867 | `reduceRight` gives `Other` exactly when no line is Given/When/Then. Otherwise it gives the type of the last (nearest) such line. |
| Steps.LineType | gserver/src/steps.handler.ts:851-854 | The lowered keyword type of a Gherkin line, and none for any other line. `LineTypes` and `StrictGherkinTypeNearest` use it per earlier line. |
| Steps.LineTypes | gserver/src/steps.handler.ts:847-864 | One entry per earlier line: its lowered keyword type when it is a Gherkin line, none otherwise. |
| Steps.StrictGherkinType | gserver/src/steps.handler.ts:843-871 | Keywords other than And/But keep their own type. And/But get Given, When, Then or Other. |
| Steps.StrictGherkinTypeNearest | gserver/src/steps.handler.ts:846-867 | For And/But the type is Other exactly when none of the first `min(lineNumber, lines)` lines is a Given/When/Then line. Otherwise it is the type of the last such line. |
| Steps.LineId | gserver/src/steps.handler.ts:181-186 | A feature line uses at most one step. |
| Steps.LineIdsStep | gserver/src/steps.handler.ts:180-187 | The ids used by one more line are appended. |
| Steps.UsedIdsStep | gserver/src/steps.handler.ts:178-188 | The ids used by one more document are appended. |
| Steps.TallyStep | gserver/src/steps.handler.ts:183-185 | Counting at most one more id is at most one increment. |
| Steps.DedupStep | gserver/src/steps.handler.ts:781-787 | One round of the inner reduce appends the step exactly when its id is new. |
| Steps.CatalogueStep | gserver/src/steps.handler.ts:779-789 | One round of the outer reduce appends that file's unseen steps and adds its ids. |
| Steps.KeepUnseen | gserver/src/steps.handler.ts:781-787 | The inner loop keeps the steps of one file whose id is not yet seen, in order and each id once. It adds all of the file's ids to the seen set. |
| Steps.CollectSteps | gserver/src/steps.handler.ts:778-789 | The outer loop gives the first-wins de-duplication of all files' steps, and the set of all their ids. |
| Steps.DropLastWord | gserver/src/steps.handler.ts:903 | `replace(/[^\s]+$/, '')`: a prefix of the text that ends in white space or is empty, with only non-space characters removed. |
| Steps.StepsOfBucket | gserver/src/steps.handler.ts:915 | A bucket's steps are catalogue steps. (Also at line 920.) |
| Steps.StepsAtIn | gserver/src/steps.handler.ts:915 | Selected steps are catalogue steps. (Also at line 920.) |
| Steps.Candidates | gserver/src/steps.handler.ts:906-939 | Candidates are catalogue steps. Strict without indexing, they are exactly the steps of the strict type. |
| Steps.IndexedStrictCandidates | gserver/src/steps.handler.ts:908-939 | With current indices, strict completion sees exactly the candidates of the unindexed filter. |
| Steps.IndexedPrefixCandidates | gserver/src/steps.handler.ts:916-923 | With a three-character prefix typed that has a bucket, loose indexed completion sees exactly the steps with that prefix. |
| Steps.ItemFor | gserver/src/steps.handler.ts:952-960 | Label = step text, data = id, documentation passed through, sort text `sortPrefix(count, 5) + '_' + text`, insert text `InsertTextFor`. `Items` and `RankedOffered` map it over the ranked steps. |
| Steps.Items | gserver/src/steps.handler.ts:952-960 | One item per ranked step, in order. |
| Steps.RankedOffered | gserver/src/steps.handler.ts:942-960 | Every item comes from a catalogue step whose relaxed pattern matches the typed text, and there are at most the limit of them. |
| Steps.RankedNonEmpty | gserver/src/steps.handler.ts:941-961 | With a positive limit, something is ranked exactly when some candidate's relaxed pattern matches the typed text. With a negative limit (`slice(0, -n)`), exactly when more than n candidates match. |
| Steps.RankedFromCandidates | gserver/src/steps.handler.ts:942-960 | Every item offered is the item of a matching candidate. |
| Steps.StepsHandler.Indexed | gserver/src/steps.handler.ts:149-165 | Buckets that are current imply valid bucket positions. |
| Steps.StepsHandler.constructor | gserver/src/steps.handler.ts:123-145 | The catalogue of the step files. With feature syncing, the counts come from the feature texts, each step carries its count, and the indices are built when indexing is on. |
| Steps.StepsHandler.BuildIndices | gserver/src/steps.handler.ts:149-165 | Rebuilds both bucket maps to match the catalogue and changes nothing else. |
| Steps.StepsHandler.Populate | gserver/src/steps.handler.ts:766-794 | The catalogue becomes `Catalog` of the files, and `elementsHash` all their ids. The counts are kept, so repeating the call with the same files gives the same catalogue and counts. Indices are cleared, and rebuilt when indexing is on. |
| Steps.StepsHandler.IncrementElementCount | gserver/src/steps.handler.ts:193-199 | One more use of the id; everything else unchanged. |
| Steps.StepsHandler.SetElementsHash | gserver/src/steps.handler.ts:175-191 | Counts are reset and then tallied over the using lines of the given feature texts. Every step takes its count. Indices stay valid. |
| Steps.StepsHandler.CountUses | gserver/src/steps.handler.ts:178-188 | One document adds one use per line that uses a step. |
| Steps.StepsHandler.CompletionResolve | gserver/src/steps.handler.ts:974-977 | The item is returned unchanged, and its step counts one more use. |
| Steps.StepsHandler.ValidationType | gserver/src/steps.handler.ts:815-817 | A required type exactly in strict-validation mode. |
| Steps.StepsHandler.Validate | gserver/src/steps.handler.ts:806-832 | A warning exactly for a step line that no catalogue step (of the strict type, when strict) accepts. It spans from the keyword to the last non-space character, with the message and source of the original. |
| Steps.StepsHandler.Definition | gserver/src/steps.handler.ts:834-841 | None exactly when the line is not a step line or no step matches. Otherwise the definition of the first catalogue step that accepts the step text. |
| Steps.StepsHandler.ValidateMeansNoDefinition | gserver/src/steps.handler.ts:806-841 | Outside strict mode a line gets a warning exactly when it is a step line without a definition. |
| Steps.StepsHandler.CompletionCandidates | gserver/src/steps.handler.ts:906-939 | Candidates are catalogue steps. Strict, with the index built or indexing off: exactly the steps of the strict type. Not strict, with indexing on and built and a stored three-character prefix: exactly that prefix bucket. Not strict otherwise: every step. |
| Steps.StepsHandler.Completion | gserver/src/steps.handler.ts:891-972 | Null for a line that is not a Gherkin line. On a Gherkin line, with a positive limit the result is non-null exactly when some candidate's relaxed pattern matches the typed text without its last word; with a negative limit, exactly when more candidates match than the limit drops. The items are the items of `Ranked` over `CompletionCandidates`, in order, each from a matching candidate. With strict completion, they come from the steps of the strict type. |
| Pages.PageElement | gserver/src/pages.handler.ts:47-50 | The first page with the text. `PageElementFirst` shows it is null exactly when no page has it. |
| Pages.PageElementFirst | gserver/src/pages.handler.ts:47-50 | The first page with the text; null exactly when no page has it. |
| Pages.ObjectNamed | gserver/src/pages.handler.ts:54-56 | The first object with the text; null exactly when none has it. |
| Pages.PageObjectElement | gserver/src/pages.handler.ts:52-58 | Found exactly when the page and its object are found. The result is an object of that page with that text. |
| Pages.PageObjects | gserver/src/pages.handler.ts:64-82 | The reduce with its `push` computes `ObjectsOf` of the lines. |
| Pages.ObjectsOf | gserver/src/pages.handler.ts:64-82 | The objects found in the lines of a page file. `ObjectsDistinct`, `ObjectsComplete` and `ObjectsAtFirstLine` show that names are distinct, every matched name has its object, and each object sits at its first line. |
| Pages.ObjectsDistinct | gserver/src/pages.handler.ts:71 | No two page objects share a name. |
| Pages.ObjectsComplete | gserver/src/pages.handler.ts:66-79 | Every matched name has its object. |
| Pages.ObjectsAtFirstLine | gserver/src/pages.handler.ts:67-77 | Every object sits at the first line naming it, at (line, 0), with id `'pageObject'+md5(name)` and that line as description. |
| Pages.Head | gserver/src/pages.handler.ts:93 | `slice(0, 10)`: the first n lines, or all when there are fewer. |
| Pages.PageOf | gserver/src/pages.handler.ts:84-99 | Null exactly when the glob found nothing. Otherwise the page has the name as text, `'page'+md5(name)` as id, and the objects of the comment-free file. |
| Pages.PagesOf | gserver/src/pages.handler.ts:101-107 | At most one page per configured name. |
| Pages.PagesOfSound | gserver/src/pages.handler.ts:101-107 | Every page comes from a configured name whose glob found a file. |
| Pages.PagesOfComplete | gserver/src/pages.handler.ts:101-107 | Every configured name whose glob found a file has its page. |
| Pages.LastQuote | gserver/src/pages.handler.ts:156 | The last `"` before a position, with none after it. |
| Pages.CutQuote | gserver/src/pages.handler.ts:152 | `replace(/".*/, '')`: the text up to the first quote, with the rest of that line removed. |
| Pages.FeaturePositionOf | gserver/src/pages.handler.ts:150-169 | Null exactly when the number of `"` before the cursor is even. |
| Pages.PositionIn | gserver/src/pages.handler.ts:150-169 | For the text before the cursor and after it: null exactly when the text before holds an even number of `"`. |
| Pages.PositionOfObject | gserver/src/pages.handler.ts:150-169 | After an even number of quotes, `"page"."typed` gives page `page` and object `typed` plus the text up to the next quote. |
| Pages.PositionOfPage | gserver/src/pages.handler.ts:150-169 | After an even number of quotes, `"typed` not preceded by `".` gives page `typed` plus the text up to the next quote, with no object. |
| Pages.PositionOfEmptyPage | gserver/src/pages.handler.ts:155-165 | After `""."x` the page group is empty, so the truthiness test `if (page)` fails: the position has no object, and its page is the text after the last quote (`x`) followed by the text after the cursor up to the next quote. |
| Pages.NoQuoteCount | gserver/src/pages.handler.ts:153 | A quote-free text has no quotes to count. |
| Pages.CountCharAppend | gserver/src/pages.handler.ts:153 | Quote counts add up over concatenation. |
| Pages.ObjectShape | gserver/src/pages.handler.ts:156 | Where the quotes of `before"page"."typed` are. |
| Pages.PageShape | gserver/src/pages.handler.ts:156 | Where the last quote of `before"typed` is, and that it is not preceded by `".`. |
| Pages.LastQuoteAfter | gserver/src/pages.handler.ts:156 | A quote followed by none is the last quote. |
| Pages.QuoteCounts | gserver/src/pages.handler.ts:153-154 | `"page"."typed` adds three quotes. |
| Pages.PairOfQuoted | gserver/src/pages.handler.ts:110 | A line containing `"page"."object"` passes the `search` guard. |
| Pages.DiagnosticsCount | gserver/src/pages.handler.ts:111-144 | Each piece yields at most one warning. |
| Pages.DiagnosticsSound | gserver/src/pages.handler.ts:112-142 | Every warning comes from a `.` piece that has a piece before it. |
| Pages.DiagnosticOrigin | gserver/src/pages.handler.ts:112-142 | A given reported warning is the warning of some `.` piece with a piece before it. |
| Pages.DiagnosticsComplete | gserver/src/pages.handler.ts:111-144 | Every piece's warning is reported. |
| Pages.DiagnosticReported | gserver/src/pages.handler.ts:111-144 | The warning of one piece is among the warnings of every longer run of pieces. |
| Pages.JoinLength | gserver/src/pages.handler.ts:113-115 | The offset of piece k is the length of the first k pieces joined, plus one. |
| Pages.JoinFrom | gserver/src/pages.handler.ts:113-115 | The join from piece i starts with that piece, then the separator. |
| Pages.JoinOffset | gserver/src/pages.handler.ts:113-115 | Piece i sits at its offset in the joined text, surrounded by separators. |
| Pages.PieceAt | gserver/src/pages.handler.ts:111-115 | Each piece of `line.split('"')` is the line's text at its offset, with quotes around it. |
| Pages.SegmentDiagnostic | gserver/src/pages.handler.ts:112-141 | The warning of one piece: only a `.` piece with a piece before it can give one. `SegmentRange` states its range and message, and `DiagnosticsSound`/`DiagnosticsComplete` show `ValidateSpec` reports exactly these. |
| Pages.SegmentRange | gserver/src/pages.handler.ts:118-141 | A missing page is reported over exactly the page text, just before the `"` that precedes the `.`. A missing object is reported over exactly the object text, just after the `"` that follows the `.`. Source and line are the original's. |
| Pages.SegmentAgrees | gserver/src/pages.handler.ts:112-141 | One piece throws exactly in the `Throws` cases, and otherwise gives the corrected warning. |
| Pages.AsWrittenAgrees | gserver/src/pages.handler.ts:111-144 | The reduce as written throws exactly when some piece throws, and otherwise gives the corrected warnings. |
| Pages.ValidateAsWritten | gserver/src/pages.handler.ts:109-148 | `validate` with its `TypeError` on a missing neighbour piece. `ValidateAsWrittenAgrees` ties it to `ValidateSpec`, and `LeadingDotThrows` gives a line where it throws. |
| Pages.ValidateAsWrittenAgrees | gserver/src/pages.handler.ts:109-148 | Where `validate` as written does not throw, it gives the warnings of `ValidateSpec`. |
| Pages.LeadingDotThrows | gserver/src/pages.handler.ts:112-122 | A line that starts with `."` and passes the guard makes `validate` as written throw, whatever the pages. |
| Pages.LeadingDotExample | gserver/src/pages.handler.ts:109-148 | The line `."a"."b"` is such a line. |
| Pages.ObjectItem | gserver/src/pages.handler.ts:206-226 | A `Property` item labelled with the object's text, with its id as data. Its insert text starts with the rest of the name. |
| Pages.PageItemOf | gserver/src/pages.handler.ts:236-260 | A `Module` item labelled with the page's text, with its id as data. Any insert text starts with the rest of the name. |
| Pages.ObjectItems | gserver/src/pages.handler.ts:202-227 | At most one item per object. |
| Pages.ObjectItemsFilter | gserver/src/pages.handler.ts:197-227 | Every label starts with the entered text and is an object's name. The insert text begins with the label minus the prefix. Every object with that prefix has its item. |
| Pages.PageItems | gserver/src/pages.handler.ts:231-261 | At most one item per page. |
| Pages.PageItemsFilter | gserver/src/pages.handler.ts:229-261 | Every label starts with the entered text and is a page's name, and any insert text begins with the label minus the prefix. Every page with that prefix has its item. |
| Pages.PageItemAfterQuote | gserver/src/pages.handler.ts:249-255 | After a trailing `"` that does not close `"."`, a page item inserts the rest of the name plus `".` and triggers suggestions. |
| Pages.CompletionOf | gserver/src/pages.handler.ts:189-265 | Null outside quotes. Otherwise a non-empty list, or null when no item qualifies. |
| Pages.PagesHandler.constructor | gserver/src/pages.handler.ts:43-45 | The pages are those of the configured names. |
| Pages.PagesHandler.Populate | gserver/src/pages.handler.ts:101-107 | The loop over the configured names sets `elements` to `PagesOf`. |
| Pages.PagesHandler.Definition | gserver/src/pages.handler.ts:171-187 | Null outside quotes. With a non-empty object text, the definition of that object of the page when both exist. Otherwise the definition of the page when it exists. |
| Pages.ValidateSpec | gserver/src/pages.handler.ts:109-148 | The warnings of the pieces in order, or none without a `"…"."…"` pair. `DiagnosticsSound`, `DiagnosticsComplete` and `DiagnosticOrigin` state it; `PagesHandler.Validate` returns it. |
| Pages.PagesHandler.Validate | gserver/src/pages.handler.ts:109-148 | The loop over the pieces returns `ValidateSpec`. It returns `[]` when the line has no `"…"."…"` pair. |
| Pages.PagesHandler.PieceWarnings | gserver/src/pages.handler.ts:111-144 | The `reduce` over the pieces pushes, in order, exactly the warnings `Diagnostics` gives. |
| Pages.PagesHandler.Completion | gserver/src/pages.handler.ts:189-265 | The loops over objects or pages return `CompletionOf`. |
| Pages.PagesHandler.PageCompletions | gserver/src/pages.handler.ts:230-261 | The loop over matching pages returns `PageItems`. |
| Pages.ObjectCompletions | gserver/src/pages.handler.ts:199-227 | The loop over a page's matching objects returns `ObjectItems`. |
| Release.ToNumber | scripts/interactive-release.js:52 | `Number(part)` is never undefined, and a non-empty digit run reads as its decimal value. |
| Release.DigitsUntrimmed | scripts/interactive-release.js:52 | A digit run has no white space to trim. |
| Release.IncrementVersion | scripts/interactive-release.js:51-63 | Fails exactly for a type other than major, minor or patch, with the message `Invalid version type: <type>`. |
| Release.ParseVersion | scripts/interactive-release.js:80-83 | Numbers exist exactly for the versions that `validateVersion` accepts. |
| Release.SplitThree | scripts/interactive-release.js:52 | Three digit runs joined by dots split back into those runs. (Also at line 82.) |
| Release.ValidateVersion | scripts/interactive-release.js:80-83 | The test `/^\d+\.\d+\.\d+$/`. `ValidateVersionShape` shows it accepts exactly three non-empty digit runs joined by dots. |
| Release.ValidateVersionShape | scripts/interactive-release.js:80-83 | `validateVersion` accepts exactly three non-empty decimal digit runs joined by dots. |
| Release.RenderParse | scripts/interactive-release.js:51-63 | A version written without leading zeros is valid and reads back as the same numbers. (Also at lines 80-83.) |
| Release.ValidParts | scripts/interactive-release.js:52 | `split('.').map(Number)` of a valid version gives its three numbers. |
| Release.Bump | scripts/interactive-release.js:53-62 | The `switch` on the type. `MajorBump`, `MinorBump` and `PatchBump` state each case on a valid version, and `BumpRaises` shows every bump raises it. |
| Release.PatchBump | scripts/interactive-release.js:58-59 | A patch bump of a valid version increments only the third number. |
| Release.MinorBump | scripts/interactive-release.js:56-57 | A minor bump increments the second number and resets the third to 0. |
| Release.MajorBump | scripts/interactive-release.js:54-55 | A major bump increments the first number and resets the second and third to 0. |
| Release.BumpStaysValid | scripts/interactive-release.js:51-63 | Bumping a valid version gives a valid version whose numbers are the bumped ones. (Also at lines 80-83.) |
| Release.BumpRaises | scripts/interactive-release.js:51-63 | Every bump strictly raises the version in major/minor/patch order. |
| Release.LeadingZeros | scripts/interactive-release.js:80-83 | An extra leading `0` on the major number is accepted (`01.2.3` is valid), reads as the same numbers, and any bump gives what the unpadded version gives. |
| Release.SelectionOf | scripts/interactive-release.js:99-117 | Choices 1, 2 and 3 select an increment of patch, minor or major, 4 a custom version, and anything else a new prompt. |
| Release.ChoiceBumps | scripts/interactive-release.js:99-105 | For a valid version, choices 1, 2 and 3 give the patch, minor and major bumps, and never throw. |

## Left out

- The regular-expression engine. `new RegExp(p).test(s)` and whether `new RegExp(p)` throws are the `Host` functions `matches` and `compiles`. The step-declaration expression (`getStepRegExp`, `geStepDefinitionMatch`, gserver/src/steps.handler.ts:205-245) and the Gherkin line expression (`getGherkinRegEx`, 167-169) are the recognizers `stepDeclaration` and `gherkinLine`. A RegExp custom parameter splits through `patternSplit`, and `getPoMatch` (pages.handler.ts:60-62) is `pageObjectName`.
- `escapeRegExp`, `escaprRegExpForPureText`, `getMD5Id`, `getOSPath`, `clearComments`, `getSortPrefix`, `getGherkinType`, `getGherkinTypeLower` and `toLowerCase` are `Host` functions. Their code (`./util`, `./gherkin`) is not part of this model, and no property of them is assumed.
- `getDocumentation` (steps.handler.ts:567-581) wraps the `doctrine` parser and is the `Host` function `documentation`.
- The regex caches (steps.handler.ts:77-121, 391-404) are memoisation. The model always recomputes, which gives what a cache hit returns.
- File system and globbing: the globs of `populate`, `setElementsHash`, the constructor and `getPage`, and `getFileContent`. The model takes the found files with their contents, as lists supplied by the caller. The same holds for `validateConfiguration` (742-764), which only reports globs that find nothing, with a range from `getTextRange`.
- Steps.StepsHandler.constructor: the performance defaults (steps.handler.ts:127-134) are not modelled as an update of the settings. `Types.Settings` carries the effective values of `enableStepIndexing` and `maxCompletionItems`, and a `maxCompletionItems` of 0 stands for "unset".
- `getCompletionOptimized` (874-888) is a `setTimeout` debounce, so timing. `getCompletion` is its synchronous core.
- The object key order of `Object.keys(settings)` in `PagesHandler.populate` is the order of the `PageSetting` list. Prototype keys such as `__proto__` in the JavaScript objects used as dictionaries are not modelled.
- StepFiles.PartialRegTextOrFull: the fallback `getRegExpCached(regText)` (steps.handler.ts:105-106) compiles the full expression text without a `try`, so it throws when that text does not compile either. The model returns the text and does not model that throw. In pure-text mode the fallback text also differs from the expression that `getSteps` checked with `compiles` (598-610), and that difference is kept without a compile check.
- `commentStartLine` in `getMultiLineComments` is written but never read, so it is not modelled.
- The LSP constants of returned items are not modelled: `kind` of step items, `insertTextFormat`, `severity: Warning`, and the command title of page items. Page items keep their kind and a flag for the suggestion command.
- Completion items carry `sortText` as `Host.sortPrefix(count, 5) + "_" + text`. Its order is not proved.
- Steps.StepsHandler.Completion: its contract states the count ordering through the ranked steps it names (`Items(..., Ranked(...))`), not on the items themselves, because items do not carry counts. The ordering is proved about `StepIndex.Ranked` in `StepIndex.RankedProperties`.
- Steps.StepsHandler.Validate, Pages.Offset, Pages.SegmentDiagnostic, StepIndex.PrefixKey, Steps.Candidates, Pages.FeaturePositionOf: positions, lengths, `substring(0, 3)` and `slice` count characters (Unicode scalar values), while JavaScript counts UTF-16 code units. On text outside the Basic Multilingual Plane the source gives other columns, ranges, prefixes and cuts than the model.
- StepPatterns.ParameterTypeReplaced, StepPatterns.RubyReplaced, StepPatterns.OptionalReplaced, StepPatterns.AlternativeReplaced, StepPatterns.CucumberReplaced, StepPatterns.CommonPatternsOfOptional, StepPatterns.CommonPatternsOfAlternatives, StepPatterns.CommonPatternsOfName, StepPatterns.PatternOfParameterStep: each is stated for one occurrence, in text where no other occurrence can start. Texts with several occurrences are covered only by the scanner definitions (`OptionalText`, `AlternativeText` and the others), which move past each match and go on; no lemma states the several-occurrence case.
- Pages.CompletionOf: its contract states only the null cases and non-emptiness. The qualifying items are characterised by `Pages.ObjectItemsFilter` and `Pages.PageItemsFilter`.
- Release.ToNumber: `Number` is modelled for white space and decimal digit runs only. Signed, hexadecimal, exponent and `Infinity` texts read as `NaN` here, and precision loss beyond 2^53 is not modelled.
- `selectVersionType`'s prompt loop, the custom-version loop with `validateVersion`, and the rest of the release script (git, npm and readline plumbing) are I/O. Only the choice mapping is modelled.
- `gserver/src/server.ts`, `gclient/src/extension.ts` and the other scripts are LSP, VS Code and process glue and are not part of this model.

Behaviours of the code that the model keeps as they are:

- The non-pure `getRegTextForStep` (steps.handler.ts:406-417) returns its expression text without `^` and `$` anchors. Only the pure-text variant (339-357) anchors it.
- Outline variables (steps.handler.ts:247-260) are read from every `Examples:` table of the document, and a later table overrides an earlier one.
- `getStepTextInvariants` (steps.handler.ts:491-510) has no cap on the number of texts it returns.
- With `strictGherkinCompletion`, a strict type `Other` (steps.handler.ts:906-939) selects the steps of type `Other`, not every step.

## Findings

| source | as written | input that shows it | evidently intended | confidence | as-written member | corrected member |
|---|---|---|---|---|---|---|
| gserver/src/pages.handler.ts:111-141 | A `.` piece reads `page.length` of the piece before it, and `pageObject.length` of the piece after it when the page exists. With no piece before it (the line starts with `."`), or a found page and no piece after it (the line ends with `"page".`), `validate` throws a `TypeError`. | the line `."a"."b"` (passes the guard at line 110; its first piece is `.`) | skip a `.` piece that lacks a neighbour and report nothing for it | high; not executed | Pages.ValidateAsWritten, Pages.LeadingDotExample | Pages.PagesHandler.Validate, Pages.ValidateSpec, Pages.AsWrittenAgrees |
| gserver/src/steps.handler.ts:491-510 | `step.replace(matchRes, variant)` (line 504) passes each alternative as a string replacement, so `$&`, `$$`, `` $` `` and `$'` in it are expanded. An alternative containing `$&` puts the whole group back, and the recursion on the new step finds the same group again, without end, until `populate` throws a stack overflow. | the step `I pick (a$&\|b)` | each alternative put in literally, so every step expands to texts without groups | medium; not executed | StepPatterns.InvariantsAsWrittenLoop | StepPatterns.StepTextInvariants, StepPatterns.InvariantsLiteralStops, Strings.ReplaceFirstJsLiteral |
