/** The steps one definition file declares (`getSteps`, `getFileSteps`,
    gserver/src/steps.handler.ts:583-740) and the catalogue built from all
    files (`populate`, gserver/src/steps.handler.ts:766-794). */
module StepFiles {
  import opened Wrappers
  import opened Strings
  import opened Types
  import opened StepPatterns
  import opened PartialPattern
  import opened Comments
  import opened StepIndex

  /** The partial expression of a step, or the full one when the partial one
      does not compile (`getPartialRegExpCached`). The fallback is always the
      non-pure form. */
  function PartialRegTextOrFull(settings: Settings, host: Host, v: string): (r: string)
    ensures host.compiles(PartialRegText(settings, host, v)) ==> r == PartialRegText(settings, host, v)
    ensures !host.compiles(PartialRegText(settings, host, v)) ==> r == RegTextForStep(host, v)
  {
    var partial := PartialRegText(settings, host, v);
    if host.compiles(partial) then partial else RegTextForStep(host, v)
  }

  /** The `map` callback of `getSteps` for one variant. */
  function MakeStep(settings: Settings, host: Host, counts: map<string, nat>, v: string,
                    desc: string, def: Location, gherkin: GherkinType, documentation: string): (s: Step)
    ensures s.id == "step" + host.md5(s.text) && s.count == ElementCount(counts, s.id)
    ensures s.text == if settings.pureTextSteps then v else TextForStep(v)
    ensures s.regText == RegTextFor(settings, host, v)
    ensures s.def == def && s.gherkin == gherkin && s.desc == desc && s.documentation == documentation
  {
    var text := if settings.pureTextSteps then v else TextForStep(v);
    var id := "step" + host.md5(text);
    Step(id, RegTextFor(settings, host, v), PartialRegTextOrFull(settings, host, v), text, desc, def,
         ElementCount(counts, id), gherkin, documentation)
  }

  /** What every step built in one call of `getSteps` shares. */
  predicate Built(host: Host, counts: map<string, nat>, s: Step, desc: string, def: Location,
                  gherkin: GherkinType, documentation: string) {
    s.id == "step" + host.md5(s.text) && s.count == ElementCount(counts, s.id) &&
    host.compiles(s.regText) && s.def == def && s.gherkin == gherkin &&
    s.desc == desc && s.documentation == documentation
  }

  /** The `filter` and `map` of `getSteps`: variants whose expression does not
      compile are dropped. */
  function MakeSteps(settings: Settings, host: Host, counts: map<string, nat>, vs: seq<string>,
                     desc: string, def: Location, gherkin: GherkinType, documentation: string): (r: seq<Step>)
    ensures |r| <= |vs|
  {
    if vs == [] then []
    else
      var v := vs[0];
      var rest := MakeSteps(settings, host, counts, vs[1..], desc, def, gherkin, documentation);
      if host.compiles(RegTextFor(settings, host, v)) then
        [MakeStep(settings, host, counts, v, desc, def, gherkin, documentation)] + rest
      else rest
  }

  /** Every step kept carries the description, location, keyword and
      documentation of the declaration, and an expression that compiles. */
  lemma {:induction false} MakeStepsBuilt(settings: Settings, host: Host, counts: map<string, nat>, vs: seq<string>,
                                          desc: string, def: Location, gherkin: GherkinType, documentation: string)
    ensures forall s :: s in MakeSteps(settings, host, counts, vs, desc, def, gherkin, documentation) ==>
      Built(host, counts, s, desc, def, gherkin, documentation)
    decreases |vs|
  {
    if vs != [] {
      MakeStepsBuilt(settings, host, counts, vs[1..], desc, def, gherkin, documentation);
    }
  }

  /** Every variant whose expression compiles gives a step. */
  lemma {:induction false} MakeStepsComplete(settings: Settings, host: Host, counts: map<string, nat>, vs: seq<string>,
                                             desc: string, def: Location, gherkin: GherkinType, documentation: string)
    ensures forall v :: v in vs && host.compiles(RegTextFor(settings, host, v)) ==>
      MakeStep(settings, host, counts, v, desc, def, gherkin, documentation) in
        MakeSteps(settings, host, counts, vs, desc, def, gherkin, documentation)
    decreases |vs|
  {
    if vs != [] {
      MakeStepsComplete(settings, host, counts, vs[1..], desc, def, gherkin, documentation);
      var rest := MakeSteps(settings, host, counts, vs[1..], desc, def, gherkin, documentation);
      var head := if host.compiles(RegTextFor(settings, host, vs[0]))
        then [MakeStep(settings, host, counts, vs[0], desc, def, gherkin, documentation)] else [];
      MakeStepsCons(settings, host, counts, vs, desc, def, gherkin, documentation);
      forall v | v in vs && host.compiles(RegTextFor(settings, host, v))
        ensures MakeStep(settings, host, counts, v, desc, def, gherkin, documentation) in head + rest
      {
        if v != vs[0] {
          assert v in vs[1..];
        }
      }
    }
  }

  /** One step of `MakeSteps`: the first variant's step, if kept, before the rest. */
  lemma MakeStepsCons(settings: Settings, host: Host, counts: map<string, nat>, vs: seq<string>,
                      desc: string, def: Location, gherkin: GherkinType, documentation: string)
    requires vs != []
    ensures MakeSteps(settings, host, counts, vs, desc, def, gherkin, documentation) ==
      (if host.compiles(RegTextFor(settings, host, vs[0]))
       then [MakeStep(settings, host, counts, vs[0], desc, def, gherkin, documentation)] else []) +
      MakeSteps(settings, host, counts, vs[1..], desc, def, gherkin, documentation)
  {
    var rest := MakeSteps(settings, host, counts, vs[1..], desc, def, gherkin, documentation);
    assert [] + rest == rest;
  }

  /** `getSteps`: the variants of the declared pattern (several when
      invariants are on), described by the declaration line and documented by
      the block comment before it, or by the line itself. */
  function StepsOf(settings: Settings, host: Host, counts: map<string, nat>, fullLine: string,
                   stepPart: string, def: Location, gherkin: GherkinType, comments: map<nat, string>)
    : (r: seq<Step>)
    ensures forall s :: s in r ==> Built(host, counts, s, DescForStep(fullLine), def, gherkin,
      if def.line in comments && comments[def.line] != "" then host.documentation(comments[def.line]) else fullLine)
    ensures !settings.stepsInvariants ==> |r| <= 1
  {
    var variants := if settings.stepsInvariants then StepTextInvariants(stepPart) else [stepPart];
    var desc := DescForStep(fullLine);
    var documentation := DocumentationOf(host, comments, def.line, fullLine);
    MakeStepsBuilt(settings, host, counts, variants, desc, def, gherkin, documentation);
    MakeSteps(settings, host, counts, variants, desc, def, gherkin, documentation)
  }

  /** The documentation of a declaration: its block comment, when the
      comments hold a non-empty one for its line, else the line itself. */
  function DocumentationOf(host: Host, comments: map<nat, string>, line: nat, fullLine: string): (r: string)
    ensures line in comments && comments[line] != "" ==> r == host.documentation(comments[line])
    ensures !(line in comments && comments[line] != "") ==> r == fullLine
  {
    var comment := if line in comments then comments[line] else "";
    if comment != "" then host.documentation(comment) else fullLine
  }

  /** The declaration found for a line, with the line text it was found in:
      the line itself, or the line joined with the next one when only the
      joined text declares a step. */
  function DeclarationAt(host: Host, curr: string, next: string): (r: Option<(StepDeclaration, string)>)
    ensures host.stepDeclaration(curr).Some? ==> r == Some((host.stepDeclaration(curr).value, curr))
    ensures r.Some? && r.value.1 != curr ==>
      r.value.1 == curr + next && next != "" && host.stepDeclaration(next).None? &&
      host.stepDeclaration(curr + next) == Some(r.value.0)
    ensures r.Some? ==> host.stepDeclaration(r.value.1) == Some(r.value.0)
  {
    match host.stepDeclaration(curr)
    case Some(d) => Some((d, curr))
    case None =>
      if next == "" then None
      else
        var both := host.stepDeclaration(curr + next);
        if both.Some? && host.stepDeclaration(next).None? then Some((both.value, curr + next)) else None
  }

  /** The steps declared at line `i` of the comment-free file. */
  function LineSteps(settings: Settings, host: Host, counts: map<string, nat>, path: string,
                     lines: seq<string>, comments: map<nat, string>, i: nat): (r: seq<Step>)
    requires i < |lines|
    ensures forall s :: s in r ==> s.def.uri == host.osPath(path) && s.def.line == i
  {
    var curr := HandleCustomParameters(host, settings.customParameters, lines[i]);
    var next := HandleCustomParameters(host, settings.customParameters, if i + 1 < |lines| then lines[i + 1] else "");
    match DeclarationAt(host, curr, next)
    case None => []
    case Some((d, finalLine)) =>
      if |Trim(d.body)| < 3 then []
      else
        var def := Location(host.osPath(path), i, |d.before|);
        StepsOf(settings, host, counts, finalLine, d.body, def, host.gherkinTypeLower(d.keyword), comments)
  }

  /** The `reduce` of `getFileSteps` over the first `n` lines. */
  function StepsUpTo(settings: Settings, host: Host, counts: map<string, nat>, path: string,
                     lines: seq<string>, comments: map<nat, string>, n: nat): (r: seq<Step>)
    requires n <= |lines|
    ensures forall s :: s in r ==> s.def.uri == host.osPath(path) && s.def.line < n
  {
    if n == 0 then []
    else
      var init := StepsUpTo(settings, host, counts, path, lines, comments, n - 1);
      var last := LineSteps(settings, host, counts, path, lines, comments, n - 1);
      assert forall s :: s in init + last ==> s in init || s in last;
      init + last
  }

  /** `getFileSteps`: lines are read with comments cleared, and documentation
      is looked up in the comments of the original text by line number. */
  function FileSteps(settings: Settings, host: Host, counts: map<string, nat>, file: SourceFile): (r: seq<Step>)
    ensures forall s :: s in r ==>
      s.def.uri == host.osPath(file.path) && s.def.line < |SplitLines(host.clearComments(file.content))|
  {
    var lines := SplitLines(host.clearComments(file.content));
    StepsUpTo(settings, host, counts, file.path, lines, CommentsOf(file.content), |lines|)
  }

  /** The paths of some files. */
  function Paths(files: seq<SourceFile>): (r: set<string>)
    ensures forall k :: 0 <= k < |files| ==> files[k].path in r
    ensures forall p :: p in r ==> exists k :: 0 <= k < |files| && files[k].path == p
  {
    if files == [] then {} else Paths(files[..|files| - 1]) + {files[|files| - 1].path}
  }

  /** The `Set` of found files: each path once, in the order first found. */
  function UniqueByPath(files: seq<SourceFile>): (r: seq<SourceFile>)
    ensures forall p, q :: 0 <= p < q < |r| ==> r[p].path != r[q].path
    ensures forall f :: f in r ==> f in files
    ensures Paths(r) == Paths(files)
  {
    if files == [] then []
    else
      var init := files[..|files| - 1];
      var f := files[|files| - 1];
      var u := UniqueByPath(init);
      assert Paths(files) == Paths(init) + {f.path};
      if f.path in Paths(init) then u
      else
        assert Paths(u + [f]) == Paths(u) + {f.path} by {
          assert (u + [f])[..|u + [f]| - 1] == u;
        }
        u + [f]
  }

  /** The steps of the files, file after file. */
  function AllSteps(settings: Settings, host: Host, counts: map<string, nat>, files: seq<SourceFile>): seq<Step>
  {
    if files == [] then []
    else AllSteps(settings, host, counts, files[..|files| - 1]) + FileSteps(settings, host, counts, files[|files| - 1])
  }

  lemma AllStepsStep(settings: Settings, host: Host, counts: map<string, nat>, files: seq<SourceFile>, i: nat)
    requires i < |files|
    ensures AllSteps(settings, host, counts, files[..i + 1]) ==
      AllSteps(settings, host, counts, files[..i]) + FileSteps(settings, host, counts, files[i])
  {
    var prefix := files[..i + 1];
    assert prefix[..|prefix| - 1] == files[..i];
    assert prefix[|prefix| - 1] == files[i];
  }

  /** The catalogue `populate` builds: the steps of each file once, the first
      step of each id kept. */
  function Catalog(settings: Settings, host: Host, counts: map<string, nat>, files: seq<SourceFile>): seq<Step> {
    Dedup(AllSteps(settings, host, counts, UniqueByPath(files)), {})
  }

  // ------------------------------------------------------------------------
  // Properties

  /** A line whose declaration body is shorter than three characters once
      trimmed contributes nothing. */
  lemma ShortBodySkipped(settings: Settings, host: Host, counts: map<string, nat>, path: string,
                         lines: seq<string>, comments: map<nat, string>, i: nat)
    requires i < |lines|
    requires var curr := HandleCustomParameters(host, settings.customParameters, lines[i]);
      host.stepDeclaration(curr).Some? && |Trim(host.stepDeclaration(curr).value.body)| < 3
    ensures LineSteps(settings, host, counts, path, lines, comments, i) == []
  {
  }

  /** A single-line declaration with a usable body and no invariants gives
      exactly one step when its expression compiles: the step of its pattern,
      at (line, length of the text before the keyword), with the keyword's type. */
  lemma SingleLineDeclaration(settings: Settings, host: Host, counts: map<string, nat>, path: string,
                              lines: seq<string>, comments: map<nat, string>, i: nat)
    requires i < |lines| && !settings.stepsInvariants
    requires var curr := HandleCustomParameters(host, settings.customParameters, lines[i]);
      host.stepDeclaration(curr).Some? && |Trim(host.stepDeclaration(curr).value.body)| >= 3 &&
      host.compiles(RegTextFor(settings, host, host.stepDeclaration(curr).value.body))
    ensures var curr := HandleCustomParameters(host, settings.customParameters, lines[i]);
      var d := host.stepDeclaration(curr).value;
      LineSteps(settings, host, counts, path, lines, comments, i) ==
        [MakeStep(settings, host, counts, d.body, DescForStep(curr), Location(host.osPath(path), i, |d.before|),
                  host.gherkinTypeLower(d.keyword), DocumentationOf(host, comments, i, curr))]
  {
    var curr := HandleCustomParameters(host, settings.customParameters, lines[i]);
    var d := host.stepDeclaration(curr).value;
    LineOfDeclaration(settings, host, counts, path, lines, comments, i);
    StepsOfSingle(settings, host, counts, curr, d.body, Location(host.osPath(path), i, |d.before|),
                  host.gherkinTypeLower(d.keyword), comments);
  }

  /** A line that declares a step by itself, with a usable body, gives the
      steps of that declaration. */
  lemma LineOfDeclaration(settings: Settings, host: Host, counts: map<string, nat>, path: string,
                          lines: seq<string>, comments: map<nat, string>, i: nat)
    requires i < |lines|
    requires var curr := HandleCustomParameters(host, settings.customParameters, lines[i]);
      host.stepDeclaration(curr).Some? && |Trim(host.stepDeclaration(curr).value.body)| >= 3
    ensures var curr := HandleCustomParameters(host, settings.customParameters, lines[i]);
      var d := host.stepDeclaration(curr).value;
      LineSteps(settings, host, counts, path, lines, comments, i) ==
        StepsOf(settings, host, counts, curr, d.body, Location(host.osPath(path), i, |d.before|),
                host.gherkinTypeLower(d.keyword), comments)
  {
  }

  /** Without invariants, a declaration whose expression compiles gives exactly
      the step of its own pattern. */
  lemma StepsOfSingle(settings: Settings, host: Host, counts: map<string, nat>, fullLine: string,
                      stepPart: string, def: Location, gherkin: GherkinType, comments: map<nat, string>)
    requires !settings.stepsInvariants && host.compiles(RegTextFor(settings, host, stepPart))
    ensures StepsOf(settings, host, counts, fullLine, stepPart, def, gherkin, comments) ==
      [MakeStep(settings, host, counts, stepPart, DescForStep(fullLine), def, gherkin,
                DocumentationOf(host, comments, def.line, fullLine))]
  {
    MakeStepsOne(settings, host, counts, stepPart, DescForStep(fullLine), def, gherkin,
                 DocumentationOf(host, comments, def.line, fullLine));
  }

  lemma MakeStepsOne(settings: Settings, host: Host, counts: map<string, nat>, v: string,
                     desc: string, def: Location, gherkin: GherkinType, documentation: string)
    requires host.compiles(RegTextFor(settings, host, v))
    ensures MakeSteps(settings, host, counts, [v], desc, def, gherkin, documentation) ==
      [MakeStep(settings, host, counts, v, desc, def, gherkin, documentation)]
  {
    assert [v][1..] == [];
  }

  /** The catalogue has one step per id, each a step of a found file, and
      every id of the found files is in it. */
  lemma CatalogIds(settings: Settings, host: Host, counts: map<string, nat>, files: seq<SourceFile>)
    ensures var c := Catalog(settings, host, counts, files);
      var all := AllSteps(settings, host, counts, UniqueByPath(files));
      (forall p, q :: 0 <= p < q < |c| ==> c[p].id != c[q].id) &&
      (forall x :: x in c ==> x in all) &&
      Ids(c) == Ids(all)
  {
    var all := AllSteps(settings, host, counts, UniqueByPath(files));
    DedupDistinct(all, {});
    DedupIds(all, {});
  }

  /** Of several steps with one id, the first one found is kept. */
  lemma CatalogKeepsFirst(settings: Settings, host: Host, counts: map<string, nat>, files: seq<SourceFile>, j: nat)
    requires var all := AllSteps(settings, host, counts, UniqueByPath(files));
      j < |all| && forall i :: 0 <= i < j ==> all[i].id != all[j].id
    ensures AllSteps(settings, host, counts, UniqueByPath(files))[j] in Catalog(settings, host, counts, files)
  {
    DedupKeepsFirst(AllSteps(settings, host, counts, UniqueByPath(files)), {}, j);
  }
}
