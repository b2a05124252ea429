/** The data model shared by the step and page handlers: Gherkin keyword types,
    the extension settings, custom parameters, definition locations, and the
    collaborators whose code is not part of this model (the regular-expression
    engine, `./util`, `./gherkin`, `doctrine`), gathered in one `Host` value so
    that every operation receives them explicitly. */
module Types {
  import opened Wrappers

  /** `GherkinType` from `./gherkin`. */
  datatype GherkinType = Given | When | Then | And | But | Other

  /** What a custom parameter matches: `string | RegExp` (gserver/src/types.ts:8). */
  datatype ParamMatcher = Literal(text: string) | Pattern(source: string)

  datatype CustomParameter = CustomParameter(parameter: ParamMatcher, value: string)

  /** The options the core reads (gserver/src/types.ts:41-62), with the
      performance defaults of the handler's constructor already applied.
      `maxCompletionItems` keeps the raw number: 0 stands for "unset". */
  datatype Settings = Settings(
    customParameters: seq<CustomParameter>,
    pureTextSteps: bool,
    stepsInvariants: bool,
    smartSnippets: bool,
    strictGherkinValidation: bool,
    strictGherkinCompletion: bool,
    enableStepIndexing: bool,
    maxCompletionItems: int)

  /** `Location.create(uri, Range.create(pos, pos))`: an empty range at one position. */
  datatype Location = Location(uri: string, line: nat, character: nat)

  /** The capture groups of `^(\s*)(keyword)(\s+)(.*)` on a feature-file line. */
  datatype GherkinLine = GherkinLine(leading: string, keyword: string, gap: string, rest: string)

  /** The capture groups 1-4 of the step-declaration expression: the text before
      the keyword, the keyword, the opening delimiter and the pattern body. */
  datatype StepDeclaration = StepDeclaration(before: string, keyword: string, delimiter: string, body: string)

  /** The collaborators this model does not contain. Each field stands for one
      function of the original whose code is outside the model:
      - `matches(p, s)`: `new RegExp(p).test(s)`; `compiles(p)`: `new RegExp(p)` does not throw;
      - `gherkinLine`: a match against `getGherkinRegEx()`;
      - `stepDeclaration`: `geStepDefinitionMatch` under the configured keyword/delimiter;
      - `patternSplit(src, s)`: `s.split(new RegExp(src))` for a RegExp custom parameter;
      - `escapeRegExp`, `escapePureText`, `md5`, `osPath`, `clearComments`, `sortPrefix`,
        `gherkinType`, `gherkinTypeLower` from `./util` and `./gherkin`;
      - `documentation`: the `doctrine`-based `getDocumentation`;
      - `lower`: `String.prototype.toLowerCase`;
      - `pageObjectName`: group 1 of `getPoMatch`. */
  datatype Host = Host(
    matches: (string, string) -> bool,
    compiles: string -> bool,
    gherkinLine: string -> Option<GherkinLine>,
    stepDeclaration: string -> Option<StepDeclaration>,
    patternSplit: (string, string) -> seq<string>,
    escapeRegExp: string -> string,
    escapePureText: string -> string,
    md5: string -> string,
    osPath: string -> string,
    clearComments: string -> string,
    sortPrefix: (nat, nat) -> string,
    gherkinType: string -> GherkinType,
    gherkinTypeLower: string -> GherkinType,
    documentation: string -> string,
    lower: string -> string,
    pageObjectName: string -> Option<string>)

  /** A file found by a configured glob, with its content. */
  datatype SourceFile = SourceFile(path: string, content: string)

  /** A warning `Diagnostic` on one line, from `startCharacter` up to (not
      including) `endCharacter`; its severity is always Warning. */
  datatype Diagnostic = Diagnostic(line: nat, startCharacter: nat, endCharacter: nat, message: string, source: string)

  /** The `source` of every diagnostic. */
  const DiagnosticSource := "cucumberautocomplete"
}
