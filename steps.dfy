/** The step handler (gserver/src/steps.handler.ts): the catalogue of step
    definitions, the usage counts gathered from feature files, the lookup
    indices, and the three services built on them: validation of a feature
    line, go-to-definition, and completion. */
module Steps {
  import opened Wrappers
  import opened Strings
  import opened Types
  import opened Outline
  import opened InsertText
  import opened StepIndex
  import opened StepFiles

  /** A snippet `CompletionItem`: label (`itemLabel`), data, documentation, sort text, insert text. */
  datatype CompletionItem = CompletionItem(
    itemLabel: string, data: string, documentation: string, sortText: string, insertText: string)

  // ------------------------------------------------------------------------
  // Matching feature lines (pure in the catalogue)

  /** `getGherkinMatch` (gserver/src/steps.handler.ts:262-292): a line with
      `<placeholders>` is matched after putting in the outline variables of
      the document, in double quotes when the quoted text names a known step,
      plainly otherwise. */
  function GherkinMatch(host: Host, elements: seq<Step>, line: string, document: string): (r: Option<GherkinLine>)
    ensures Placeholders(line, 0) == [] ==> r == host.gherkinLine(line)
    ensures Placeholders(line, 0) != [] ==>
      var keys := Keys(Placeholders(line, 0));
      var vars := OutlineVars(document);
      var quotesMatch := host.gherkinLine(Substitute(line, keys, vars, true));
      var quotesKnown := quotesMatch.Some? && quotesMatch.value.rest != "" &&
        FindStep(host, elements, quotesMatch.value.rest, None).Some?;
      (quotesKnown ==> r == quotesMatch) &&
      (!quotesKnown ==> r == host.gherkinLine(Substitute(line, keys, vars, false)))
  {
    var ms := Placeholders(line, 0);
    if ms == [] then host.gherkinLine(line)
    else
      var vars := OutlineVars(document);
      var keys := Keys(ms);
      var pureLine := Substitute(line, keys, vars, false);
      var quotesLine := Substitute(line, keys, vars, true);
      var quotesMatch := host.gherkinLine(quotesLine);
      if quotesMatch.Some? && quotesMatch.value.rest != "" && FindStep(host, elements, quotesMatch.value.rest, None).Some? then
        quotesMatch
      else host.gherkinLine(pureLine)
  }

  /** Placeholders whose names the document does not define leave the line as
      it is. */
  lemma GherkinMatchUndefined(host: Host, elements: seq<Step>, line: string, document: string)
    requires forall k :: k in Keys(Placeholders(line, 0)) ==> k !in OutlineVars(document)
    ensures GherkinMatch(host, elements, line, document) == host.gherkinLine(line)
  {
    var keys := Keys(Placeholders(line, 0));
    SubstituteUndefined(line, keys, OutlineVars(document), false);
    SubstituteUndefined(line, keys, OutlineVars(document), true);
  }

  /** A `Given`, `When` or `Then` type. */
  predicate IsStrict(t: Option<GherkinType>) {
    t.Some? && (t.value == Given || t.value == When || t.value == Then)
  }

  /** The `reduceRight` of `getStrictGherkinType`: the type of the nearest
      line (the last one) that is a Given, When or Then step, or `Other`. */
  function NearestStrict(ts: seq<Option<GherkinType>>): (r: GherkinType)
    ensures r == Given || r == When || r == Then || r == Other
  {
    if ts == [] then Other
    else if IsStrict(ts[|ts| - 1]) then ts[|ts| - 1].value
    else NearestStrict(ts[..|ts| - 1])
  }

  /** `Other` exactly when no line is a Given, When or Then step; otherwise
      the type of the last such line. */
  lemma {:induction false} NearestStrictIsLast(ts: seq<Option<GherkinType>>)
    ensures var r := NearestStrict(ts);
      (r == Other <==> forall k :: 0 <= k < |ts| ==> !IsStrict(ts[k])) &&
      (r != Other ==> exists k :: 0 <= k < |ts| && ts[k] == Some(r) && forall j :: k < j < |ts| ==> !IsStrict(ts[j]))
  {
    if ts != [] && !IsStrict(ts[|ts| - 1]) {
      var init := ts[..|ts| - 1];
      NearestStrictIsLast(init);
      assert forall k :: 0 <= k < |init| ==> init[k] == ts[k];
    }
  }

  /** The keyword type of a line, when it is a step line (the `map` in
      `getStrictGherkinType`). */
  function LineType(host: Host, elements: seq<Step>, line: string, document: string): Option<GherkinType> {
    match GherkinMatch(host, elements, line, document)
    case None => None
    case Some(m) => Some(host.gherkinTypeLower(m.keyword))
  }

  /** The keyword type of each line, when it is a step line. */
  function LineTypes(host: Host, elements: seq<Step>, lines: seq<string>, document: string): (r: seq<Option<GherkinType>>)
    ensures |r| == |lines|
    ensures forall k :: 0 <= k < |lines| ==> r[k] == LineType(host, elements, lines[k], document)
  {
    if lines == [] then []
    else
      LineTypes(host, elements, lines[..|lines| - 1], document) + [LineType(host, elements, lines[|lines| - 1], document)]
  }

  /** `getStrictGherkinType` (gserver/src/steps.handler.ts:843-871): `And`
      and `But` take the type of the nearest Given/When/Then step above. */
  function StrictGherkinType(host: Host, elements: seq<Step>, gherkinPart: string, lineNumber: nat, text: string)
    : (r: GherkinType)
    ensures host.gherkinType(gherkinPart) != And && host.gherkinType(gherkinPart) != But ==>
      r == host.gherkinTypeLower(gherkinPart)
    ensures (host.gherkinType(gherkinPart) == And || host.gherkinType(gherkinPart) == But) ==>
      r == Given || r == When || r == Then || r == Other
  {
    var t := host.gherkinType(gherkinPart);
    if t == And || t == But then
      var lines := SplitLines(text);
      var above := if lineNumber <= |lines| then lines[..lineNumber] else lines;
      NearestStrict(LineTypes(host, elements, above, text))
    else host.gherkinTypeLower(gherkinPart)
  }

  /** The strict type over some lines: `Other` exactly when none of them is
      a Given, When or Then step; otherwise the type of the last such line. */
  predicate NearestOf(host: Host, elements: seq<Step>, lines: seq<string>, n: nat, text: string, r: GherkinType)
    requires n <= |lines|
  {
    (r == Other <==> forall k :: 0 <= k < n ==> !IsStrict(LineType(host, elements, lines[k], text))) &&
    (r != Other ==> exists k :: 0 <= k < n && LineType(host, elements, lines[k], text) == Some(r) &&
                      forall j :: k < j < n ==> !IsStrict(LineType(host, elements, lines[j], text)))
  }

  lemma NearestStrictOfLines(host: Host, elements: seq<Step>, above: seq<string>, text: string)
    ensures NearestOf(host, elements, above, |above|, text, NearestStrict(LineTypes(host, elements, above, text)))
  {
    NearestStrictIsLast(LineTypes(host, elements, above, text));
  }

  /** For `And` and `But`: `Other` exactly when no line above `lineNumber` is
      a Given, When or Then step; otherwise the type of the nearest such line. */
  lemma StrictGherkinTypeNearest(host: Host, elements: seq<Step>, gherkinPart: string, lineNumber: nat, text: string)
    requires host.gherkinType(gherkinPart) == And || host.gherkinType(gherkinPart) == But
    ensures var lines := SplitLines(text);
      NearestOf(host, elements, lines, if lineNumber <= |lines| then lineNumber else |lines|, text,
                StrictGherkinType(host, elements, gherkinPart, lineNumber, text))
  {
    var lines := SplitLines(text);
    var n := if lineNumber <= |lines| then lineNumber else |lines|;
    var above := lines[..n];
    assert above == if lineNumber <= |lines| then lines[..lineNumber] else lines;
    NearestStrictOfLines(host, elements, above, text);
    NearestOfPrefix(host, elements, lines, n, text, StrictGherkinType(host, elements, gherkinPart, lineNumber, text));
  }

  /** `NearestOf` over a prefix of some lines is `NearestOf` over the lines up to its length. */
  lemma NearestOfPrefix(host: Host, elements: seq<Step>, lines: seq<string>, n: nat, text: string, r: GherkinType)
    requires n <= |lines| && NearestOf(host, elements, lines[..n], n, text, r)
    ensures NearestOf(host, elements, lines, n, text, r)
  {
    assert forall k :: 0 <= k < n ==> lines[..n][k] == lines[k];
  }

  // ------------------------------------------------------------------------
  // Usage counts gathered from feature files

  /** The id of the step a feature line uses, if any. */
  function LineId(host: Host, elements: seq<Step>, document: string, line: string): (r: seq<string>)
    ensures |r| <= 1
  {
    match GherkinMatch(host, elements, line, document)
    case None => []
    case Some(m) =>
      match FindStep(host, elements, m.rest, None)
      case None => []
      case Some(s) => [s.id]
  }

  function LineIds(host: Host, elements: seq<Step>, document: string, lines: seq<string>): seq<string> {
    if lines == [] then []
    else LineIds(host, elements, document, lines[..|lines| - 1]) + LineId(host, elements, document, lines[|lines| - 1])
  }

  /** The ids of the steps the documents use, one per using line, in order. */
  function UsedIds(host: Host, elements: seq<Step>, features: seq<string>): seq<string> {
    if features == [] then []
    else
      var doc := features[|features| - 1];
      UsedIds(host, elements, features[..|features| - 1]) + LineIds(host, elements, doc, SplitLines(doc))
  }

  lemma LineIdsStep(host: Host, elements: seq<Step>, document: string, lines: seq<string>, i: nat)
    requires i < |lines|
    ensures LineIds(host, elements, document, lines[..i + 1]) ==
      LineIds(host, elements, document, lines[..i]) + LineId(host, elements, document, lines[i])
  {
    assert lines[..i + 1][..i] == lines[..i];
  }

  lemma UsedIdsStep(host: Host, elements: seq<Step>, features: seq<string>, d: nat)
    requires d < |features|
    ensures UsedIds(host, elements, features[..d + 1]) ==
      UsedIds(host, elements, features[..d]) + LineIds(host, elements, features[d], SplitLines(features[d]))
  {
    assert features[..d + 1][..d] == features[..d];
  }

  lemma TallyStep(counts: map<string, nat>, ids: seq<string>, more: seq<string>)
    requires |more| <= 1
    ensures Tally(counts, ids + more) == if more == [] then Tally(counts, ids) else Bump(Tally(counts, ids), more[0])
  {
    if more == [] {
      assert ids + more == ids;
    } else {
      assert (ids + more)[..|ids + more| - 1] == ids;
    }
  }

  /** One step of the inner loop of `populate`. */
  lemma DedupStep(steps: seq<Step>, seen: set<string>, j: nat)
    requires j < |steps|
    ensures Dedup(steps[..j + 1], seen) ==
      Dedup(steps[..j], seen) + (if steps[j].id in seen + Ids(steps[..j]) then [] else [steps[j]])
    ensures Ids(steps[..j + 1]) == Ids(steps[..j]) + {steps[j].id}
  {
    assert steps[..j + 1][..j] == steps[..j];
  }

  /** One file of the outer `reduce` of `populate`. */
  lemma CatalogueStep(settings: Settings, host: Host, counts: map<string, nat>, files: seq<SourceFile>, i: nat)
    requires i < |files|
    ensures var before := AllSteps(settings, host, counts, files[..i]);
      var steps := FileSteps(settings, host, counts, files[i]);
      Dedup(AllSteps(settings, host, counts, files[..i + 1]), {}) == Dedup(before, {}) + Dedup(steps, Ids(before)) &&
      Ids(AllSteps(settings, host, counts, files[..i + 1])) == Ids(before) + Ids(steps)
  {
    var before := AllSteps(settings, host, counts, files[..i]);
    var steps := FileSteps(settings, host, counts, files[i]);
    AllStepsStep(settings, host, counts, files, i);
    DedupAppendFresh(before, steps);
    IdsAppend(before, steps);
  }

  /** The inner `reduce` of `populate`: the steps of one file whose id is
      not yet in `seen`, in order, each id once, and `seen` with every id of
      the file added. */
  method KeepUnseen(steps: seq<Step>, seen: set<string>) returns (kept: seq<Step>, hash: set<string>)
    ensures kept == Dedup(steps, seen)
    ensures hash == seen + Ids(steps)
  {
    kept := [];
    hash := seen;
    var j := 0;
    while j < |steps|
      invariant 0 <= j <= |steps|
      invariant kept == Dedup(steps[..j], seen)
      invariant hash == seen + Ids(steps[..j])
    {
      var step := steps[j];
      DedupStep(steps, seen, j);
      if step.id !in hash {
        kept := kept + [step];
        hash := hash + {step.id};
      }
      j := j + 1;
    }
    assert steps[..|steps|] == steps;
  }

  // ------------------------------------------------------------------------
  // Completion candidates

  /** The outer `reduce` of `populate`: the files' steps in order, a step
      kept only when no earlier step had its id, and the set of all ids. */
  method CollectSteps(settings: Settings, host: Host, counts: map<string, nat>, files: seq<SourceFile>)
    returns (catalogue: seq<Step>, hash: set<string>)
    ensures catalogue == Dedup(AllSteps(settings, host, counts, files), {})
    ensures hash == Ids(AllSteps(settings, host, counts, files))
  {
    hash := {};
    catalogue := [];
    var i := 0;
    while i < |files|
      invariant 0 <= i <= |files|
      invariant catalogue == Dedup(AllSteps(settings, host, counts, files[..i]), {})
      invariant hash == Ids(AllSteps(settings, host, counts, files[..i]))
    {
      var steps := FileSteps(settings, host, counts, files[i]);
      var kept;
      kept, hash := KeepUnseen(steps, hash);
      CatalogueStep(settings, host, counts, files, i);
      catalogue := catalogue + kept;
      i := i + 1;
    }
    assert files[..|files|] == files;
  }

  /** `stepPart.replace(/[^\s]+$/, '')`: the typed text without its last,
      unfinished word. */
  function DropLastWord(s: string): (r: string)
    ensures StartsWith(s, r)
    ensures r != [] ==> IsSpace(r[|r| - 1])
    ensures forall k :: |r| <= k < |s| ==> !IsSpace(s[k])
  {
    if s == [] || IsSpace(s[|s| - 1]) then s else DropLastWord(s[..|s| - 1])
  }

  function StepsOfBucket<K>(elements: seq<Step>, buckets: map<K, seq<nat>>, key: K): (r: seq<Step>)
    requires forall k, p :: k in buckets && 0 <= p < |buckets[k]| ==> buckets[k][p] < |elements|
    ensures forall x :: x in r ==> x in elements
  {
    if key in buckets then
      StepsAtIn(elements, buckets[key]);
      StepsAt(elements, buckets[key])
    else []
  }

  lemma {:induction false} StepsAtIn(a: seq<Step>, idx: seq<nat>)
    requires forall p :: 0 <= p < |idx| ==> idx[p] < |a|
    ensures forall x :: x in StepsAt(a, idx) ==> x in a
  {
    if idx != [] {
      StepsAtIn(a, idx[1..]);
    }
  }

  /** The steps completion considers (gserver/src/steps.handler.ts:906-939):
      with indexing, the bucket of the strict type, or the bucket of the
      three-letter prefix when there is one; without, every step of the
      strict type, or every step. */
  function Candidates(settings: Settings, host: Host, elements: seq<Step>,
                      byGherkin: map<GherkinType, seq<nat>>, byPrefix: map<string, seq<nat>>,
                      strictType: GherkinType, stepPart: string): (r: seq<Step>)
    requires forall k, p :: k in byGherkin && 0 <= p < |byGherkin[k]| ==> byGherkin[k][p] < |elements|
    requires forall k, p :: k in byPrefix && 0 <= p < |byPrefix[k]| ==> byPrefix[k][p] < |elements|
    ensures forall x :: x in r ==> x in elements
    ensures settings.strictGherkinCompletion && !settings.enableStepIndexing ==> r == OfType(elements, strictType)
  {
    if settings.enableStepIndexing then
      if settings.strictGherkinCompletion then StepsOfBucket(elements, byGherkin, strictType)
      else
        var prefix := host.lower(Prefix(Trim(stepPart), 3));
        if |prefix| >= 3 && prefix in byPrefix then StepsOfBucket(elements, byPrefix, prefix) else elements
    else if settings.strictGherkinCompletion then OfType(elements, strictType)
    else elements
  }

  /** With up-to-date indices, strict completion considers exactly the steps
      of the strict type, in catalogue order, as it does without indices. */
  lemma IndexedStrictCandidates(settings: Settings, host: Host, elements: seq<Step>,
                                byPrefix: map<string, seq<nat>>, strictType: GherkinType, stepPart: string)
    requires settings.strictGherkinCompletion
    requires forall k, p :: k in byPrefix && 0 <= p < |byPrefix[k]| ==> byPrefix[k][p] < |elements|
    ensures Candidates(settings, host, elements, BucketBy(GherkinKeys(elements)), byPrefix, strictType, stepPart) ==
      Candidates(settings.(enableStepIndexing := false), host, elements, BucketBy(GherkinKeys(elements)), byPrefix, strictType, stepPart)
  {
    TypeBucketIsFilter(elements, strictType);
  }

  /** With up-to-date indices and a three-character prefix typed, loose
      completion considers exactly the steps whose text starts with that
      prefix (after lower-casing), when there are any. */
  lemma IndexedPrefixCandidates(settings: Settings, host: Host, elements: seq<Step>,
                                byGherkin: map<GherkinType, seq<nat>>, strictType: GherkinType, stepPart: string)
    requires settings.enableStepIndexing && !settings.strictGherkinCompletion
    requires forall k, p :: k in byGherkin && 0 <= p < |byGherkin[k]| ==> byGherkin[k][p] < |elements|
    requires var prefix := host.lower(Prefix(Trim(stepPart), 3));
      |prefix| >= 3 && prefix in BucketBy(PrefixKeys(host, elements))
    ensures Candidates(settings, host, elements, byGherkin, BucketBy(PrefixKeys(host, elements)), strictType, stepPart) ==
      OfPrefix(host, elements, host.lower(Prefix(Trim(stepPart), 3)))
    ensures forall x :: x in Candidates(settings, host, elements, byGherkin, BucketBy(PrefixKeys(host, elements)), strictType, stepPart) ==>
      PrefixKey(host, x.text) == host.lower(Prefix(Trim(stepPart), 3))
  {
    PrefixBucketIsFilter(host, elements, host.lower(Prefix(Trim(stepPart), 3)));
  }

  /** The completion item of one step. */
  function ItemFor(settings: Settings, host: Host, s: Step, stepPart: string): CompletionItem {
    CompletionItem(s.text, s.id, s.documentation, host.sortPrefix(s.count, 5) + "_" + s.text,
                   InsertTextFor(settings, host, s.text, stepPart))
  }

  function Items(settings: Settings, host: Host, steps: seq<Step>, stepPart: string): (r: seq<CompletionItem>)
    ensures |r| == |steps|
    ensures forall k :: 0 <= k < |steps| ==> r[k] == ItemFor(settings, host, steps[k], stepPart)
  {
    if steps == [] then [] else [ItemFor(settings, host, steps[0], stepPart)] + Items(settings, host, steps[1..], stepPart)
  }

  /** Every item is the item of a catalogue step whose partial expression
      matches the typed text. */
  predicate OfferedFrom(settings: Settings, host: Host, elements: seq<Step>, items: seq<CompletionItem>, stepPart: string) {
    forall k :: 0 <= k < |items| ==> exists x :: x in elements && host.matches(x.partialRegText, stepPart) &&
                                                items[k] == ItemFor(settings, host, x, stepPart)
  }

  /** The items of the ranked candidates come from the catalogue. */
  lemma RankedOffered(settings: Settings, host: Host, elements: seq<Step>, candidates: seq<Step>, stepPart: string)
    requires forall x :: x in candidates ==> x in elements
    ensures var ranked := Ranked(settings, host, candidates, stepPart);
      OfferedFrom(settings, host, elements, Items(settings, host, ranked, stepPart), stepPart) &&
      (CompletionLimit(settings) >= 0 ==> |ranked| <= CompletionLimit(settings))
  {
    var ranked := Ranked(settings, host, candidates, stepPart);
    RankedProperties(settings, host, candidates, stepPart);
    var items := Items(settings, host, ranked, stepPart);
    forall k | 0 <= k < |items|
      ensures exists x :: x in elements && host.matches(x.partialRegText, stepPart) && items[k] == ItemFor(settings, host, x, stepPart)
    {
      var x := ranked[k];
      assert x in ranked;
      assert items[k] == ItemFor(settings, host, x, stepPart);
    }
  }

  /** `results.length ? results : null`: with a positive limit something is
      offered exactly when some candidate matches the typed text; with a
      negative limit (`slice(0, -n)`), exactly when more than `n` match. The
      items come from the candidates. */
  lemma RankedNonEmpty(settings: Settings, host: Host, candidates: seq<Step>, stepPart: string)
    ensures var ranked := Ranked(settings, host, candidates, stepPart);
      (CompletionLimit(settings) > 0 ==>
        (ranked != [] <==> exists x :: x in candidates && host.matches(x.partialRegText, stepPart))) &&
      (CompletionLimit(settings) < 0 ==>
        (ranked != [] <==> |Matching(host, candidates, stepPart)| > -CompletionLimit(settings)))
  {
    var m := Matching(host, candidates, stepPart);
    var sorted := SortByCount(m);
    assert |sorted| == |multiset(sorted)| == |multiset(m)| == |m|;
    if m != [] {
      assert m[0] in m;
    }
  }

  /** The items of the ranked candidates are items of matching candidates. */
  lemma RankedFromCandidates(settings: Settings, host: Host, candidates: seq<Step>, stepPart: string)
    ensures OfferedFrom(settings, host, candidates, Items(settings, host, Ranked(settings, host, candidates, stepPart), stepPart), stepPart)
  {
    RankedOffered(settings, host, candidates, candidates, stepPart);
  }

  // ------------------------------------------------------------------------
  // The handler

  class StepsHandler {
    const settings: Settings
    const host: Host
    /** `elements`: the catalogue. */
    var elements: seq<Step>
    /** `elementsHash`: the ids already in the catalogue. */
    var elementsHash: set<string>
    /** `elemenstCountHash`: how often each step is used in the feature files. */
    var countHash: map<string, nat>
    /** `stepsByGherkin` and `stepsByPrefix`, holding catalogue positions. */
    var stepsByGherkin: map<GherkinType, seq<nat>>
    var stepsByPrefix: map<string, seq<nat>>

    /** Every bucket position is a catalogue position. */
    predicate Valid()
      reads this
    {
      (forall k, p :: k in stepsByGherkin && 0 <= p < |stepsByGherkin[k]| ==> stepsByGherkin[k][p] < |elements|) &&
      (forall k, p :: k in stepsByPrefix && 0 <= p < |stepsByPrefix[k]| ==> stepsByPrefix[k][p] < |elements|)
    }

    /** The buckets are those of the current catalogue. */
    predicate Indexed()
      reads this
      ensures Indexed() ==> Valid()
    {
      stepsByGherkin == BucketBy(GherkinKeys(elements)) && stepsByPrefix == BucketBy(PrefixKeys(host, elements))
    }

    /** The constructor (gserver/src/steps.handler.ts:123-145): the catalogue
        of the found step files, the usage counts of the found feature files
        when feature syncing is on, and the indices when indexing is on. */
    constructor(settings: Settings, host: Host, stepFiles: seq<SourceFile>, features: Option<seq<string>>)
      ensures this.settings == settings && this.host == host
      ensures Valid()
      ensures features.None? ==> countHash == map[] && elements == Catalog(settings, host, map[], stepFiles)
      ensures features.Some? ==>
        countHash == Tally(map[], UsedIds(host, Catalog(settings, host, map[], stepFiles), features.value)) &&
        elements == WithCounts(Catalog(settings, host, map[], stepFiles), countHash)
      ensures settings.enableStepIndexing ==> Indexed()
      ensures !settings.enableStepIndexing ==> stepsByGherkin == map[] && stepsByPrefix == map[]
    {
      this.settings := settings;
      this.host := host;
      elements := [];
      elementsHash := {};
      countHash := map[];
      stepsByGherkin := map[];
      stepsByPrefix := map[];
      new;
      Populate(stepFiles);
      if features.Some? {
        SetElementsHash(features.value);
      }
      if settings.enableStepIndexing {
        BuildIndices();
      }
    }

    /** `buildIndices`: one bucket per type and per lower-cased three-letter
        text prefix, each holding the positions of its steps in order. */
    method BuildIndices()
      modifies this
      ensures elements == old(elements) && elementsHash == old(elementsHash) && countHash == old(countHash)
      ensures Indexed() && Valid()
    {
      var els := elements;
      ghost var gk := GherkinKeys(els);
      ghost var pk := PrefixKeys(host, els);
      var byGherkin: map<GherkinType, seq<nat>> := map[];
      var byPrefix: map<string, seq<nat>> := map[];
      var i: nat := 0;
      while i < |els|
        invariant i <= |els|
        invariant elements == els && elementsHash == old(elementsHash) && countHash == old(countHash)
        invariant byGherkin == BucketFrom(gk, i)
        invariant byPrefix == BucketFrom(pk, i)
      {
        var step := els[i];
        var gherkinSteps := if step.gherkin in byGherkin then byGherkin[step.gherkin] else [];
        PushNext(gk, i, byGherkin, step.gherkin);
        byGherkin := byGherkin[step.gherkin := gherkinSteps + [i]];
        var prefix := host.lower(Prefix(step.text, 3));
        var prefixSteps := if prefix in byPrefix then byPrefix[prefix] else [];
        assert prefix == pk[i];
        PushNext(pk, i, byPrefix, prefix);
        byPrefix := byPrefix[prefix := prefixSteps + [i]];
        i := i + 1;
      }
      stepsByGherkin := byGherkin;
      stepsByPrefix := byPrefix;
    }

    /** `populate`: the steps of every found file, each file once, each step
        id once (the first declaration wins); the indices are cleared, and
        rebuilt when indexing is on. The usage counts are kept. */
    method Populate(stepFiles: seq<SourceFile>)
      modifies this
      ensures countHash == old(countHash)
      ensures elements == Catalog(settings, host, old(countHash), stepFiles)
      ensures elementsHash == Ids(AllSteps(settings, host, old(countHash), UniqueByPath(stepFiles)))
      ensures settings.enableStepIndexing ==> Indexed()
      ensures !settings.enableStepIndexing ==> stepsByGherkin == map[] && stepsByPrefix == map[]
      ensures Valid()
    {
      stepsByGherkin := map[];
      stepsByPrefix := map[];
      var catalogue, hash := CollectSteps(settings, host, countHash, UniqueByPath(stepFiles));
      elements := catalogue;
      elementsHash := hash;
      if settings.enableStepIndexing {
        BuildIndices();
      }
    }

    /** `incrementElementCount`: one more use of the step `id`. */
    method IncrementElementCount(id: string)
      modifies this
      ensures countHash == Bump(old(countHash), id)
      ensures elements == old(elements) && elementsHash == old(elementsHash)
      ensures stepsByGherkin == old(stepsByGherkin) && stepsByPrefix == old(stepsByPrefix)
    {
      if id in countHash && countHash[id] != 0 {
        countHash := countHash[id := countHash[id] + 1];
      } else {
        countHash := countHash[id := 1];
      }
    }

    /** `setElementsHash`: count, over the given feature files, the lines
        that use each step, then store each step's count in the catalogue. */
    method SetElementsHash(features: seq<string>)
      modifies this
      ensures countHash == Tally(map[], UsedIds(host, old(elements), features))
      ensures elements == WithCounts(old(elements), countHash)
      ensures elementsHash == old(elementsHash)
      ensures stepsByGherkin == old(stepsByGherkin) && stepsByPrefix == old(stepsByPrefix)
      ensures old(Valid()) ==> Valid()
      ensures old(Indexed()) ==> Indexed()
    {
      countHash := map[];
      var els := elements;
      var d := 0;
      while d < |features|
        invariant 0 <= d <= |features|
        invariant elements == els && elementsHash == old(elementsHash)
        invariant stepsByGherkin == old(stepsByGherkin) && stepsByPrefix == old(stepsByPrefix)
        invariant countHash == Tally(map[], UsedIds(host, els, features[..d]))
      {
        ghost var done := UsedIds(host, els, features[..d]);
        CountUses(features[d]);
        UsedIdsStep(host, els, features, d);
        TallyAppend(map[], done, LineIds(host, els, features[d], SplitLines(features[d])));
        d := d + 1;
      }
      assert features[..|features|] == features;
      WithCountsKeys(host, elements, countHash);
      elements := WithCounts(elements, countHash);
    }

    /** The callback of `setElementsHash` for one feature file: one more use
        of the step each of its lines uses. */
    method CountUses(text: string)
      modifies this
      ensures countHash == Tally(old(countHash), LineIds(host, elements, text, SplitLines(text)))
      ensures elements == old(elements) && elementsHash == old(elementsHash)
      ensures stepsByGherkin == old(stepsByGherkin) && stepsByPrefix == old(stepsByPrefix)
    {
      var lines := SplitLines(text);
      var i := 0;
      while i < |lines|
        invariant 0 <= i <= |lines|
        invariant elements == old(elements) && elementsHash == old(elementsHash)
        invariant stepsByGherkin == old(stepsByGherkin) && stepsByPrefix == old(stepsByPrefix)
        invariant countHash == Tally(old(countHash), LineIds(host, elements, text, lines[..i]))
      {
        LineIdsStep(host, elements, text, lines, i);
        TallyStep(old(countHash), LineIds(host, elements, text, lines[..i]), LineId(host, elements, text, lines[i]));
        var found := GherkinMatch(host, elements, lines[i], text);
        if found.Some? {
          var step := FindStep(host, elements, found.value.rest, None);
          if step.Some? {
            IncrementElementCount(step.value.id);
          }
        }
        i := i + 1;
      }
      assert lines[..|lines|] == lines;
    }

    /** `getCompletionResolve`: the chosen item counts as one more use of its
        step; the item itself is returned unchanged. */
    method CompletionResolve(item: CompletionItem) returns (r: CompletionItem)
      modifies this
      ensures r == item
      ensures countHash == Bump(old(countHash), item.data)
      ensures elements == old(elements) && elementsHash == old(elementsHash)
      ensures stepsByGherkin == old(stepsByGherkin) && stepsByPrefix == old(stepsByPrefix)
    {
      IncrementElementCount(item.data);
      r := item;
    }

    /** The type `validate` requires of the matching step: the strict type in
        strict mode, none otherwise. */
    function ValidationType(keyword: string, lineNum: nat, text: string): (r: Option<GherkinType>)
      reads this
      ensures settings.strictGherkinValidation <==> r.Some?
    {
      if settings.strictGherkinValidation then Some(StrictGherkinType(host, elements, keyword, lineNum, text)) else None
    }

    /** `validate` (gserver/src/steps.handler.ts:806-832): a warning exactly
        for a step line that no step of the catalogue accepts, spanning the
        line from its keyword to its last non-space character. */
    function Validate(line: string, lineNum: nat, text: string): (r: Option<Diagnostic>)
      reads this
      ensures r.Some? <==>
        GherkinMatch(host, elements, TrimEnd(line), text).Some? &&
        var m := GherkinMatch(host, elements, TrimEnd(line), text).value;
        FindStep(host, elements, m.rest, ValidationType(m.keyword, lineNum, text)).None?
      ensures r.Some? ==>
        r.value.line == lineNum && r.value.endCharacter == |TrimEnd(line)| &&
        r.value.startCharacter == |GherkinMatch(host, elements, TrimEnd(line), text).value.leading| &&
        r.value.message == "Was unable to find step for \"" + TrimStart(TrimEnd(line)) + "\"" &&
        r.value.source == DiagnosticSource
    {
      var trimmed := TrimEnd(line);
      var lineForError := TrimStart(trimmed);
      match GherkinMatch(host, elements, trimmed, text)
      case None => None
      case Some(m) =>
        if FindStep(host, elements, m.rest, ValidationType(m.keyword, lineNum, text)).Some? then None
        else Some(Diagnostic(lineNum, |m.leading|, |trimmed|, "Was unable to find step for \"" + lineForError + "\"", DiagnosticSource))
    }

    /** `getDefinition` (gserver/src/steps.handler.ts:834-841): the location
        of the first step that accepts the line's step text. */
    function Definition(line: string, text: string): (r: Option<Location>)
      reads this
      ensures r.None? <==>
        GherkinMatch(host, elements, line, text).None? ||
        FindStep(host, elements, GherkinMatch(host, elements, line, text).value.rest, None).None?
      ensures r.Some? ==> exists k: nat :: FirstAt(host, elements, GherkinMatch(host, elements, line, text).value.rest, None, k) &&
                                       elements[k].def == r.value
    {
      match GherkinMatch(host, elements, line, text)
      case None => None
      case Some(m) =>
        match FindStep(host, elements, m.rest, None)
        case None => None
        case Some(s) => Some(s.def)
    }

    /** Outside strict mode a line gets a warning exactly when it is a step
        line without a definition. */
    lemma ValidateMeansNoDefinition(line: string, lineNum: nat, text: string)
      requires !settings.strictGherkinValidation
      ensures Validate(line, lineNum, text).Some? <==>
        GherkinMatch(host, elements, TrimEnd(line), text).Some? && Definition(TrimEnd(line), text).None?
    {
    }

    /** `getCompletion` (gserver/src/steps.handler.ts:891-972): for a step
        line, the items of the ranked `CompletionCandidates`: those whose
        partial expression matches the typed text without its unfinished last
        word, most used first, up to the limit; null when there is none. */
    function Completion(line: string, lineNumber: nat, text: string): (r: Option<seq<CompletionItem>>)
      reads this
      requires Valid()
      ensures r.Some? ==> GherkinMatch(host, elements, line, text).Some? && |r.value| >= 1
      ensures r.Some? && CompletionLimit(settings) >= 0 ==> |r.value| <= CompletionLimit(settings)
      ensures r.Some? ==> OfferedFrom(settings, host, elements, r.value,
        DropLastWord(GherkinMatch(host, elements, line, text).value.rest))
      ensures GherkinMatch(host, elements, line, text).None? ==> r.None?
      ensures GherkinMatch(host, elements, line, text).Some? ==>
        var m := GherkinMatch(host, elements, line, text).value;
        var stepPart := DropLastWord(m.rest);
        var candidates := CompletionCandidates(m, lineNumber, text);
        (CompletionLimit(settings) > 0 ==>
          (r.Some? <==> exists x :: x in candidates && host.matches(x.partialRegText, stepPart))) &&
        (CompletionLimit(settings) < 0 ==>
          (r.Some? <==> |Matching(host, candidates, stepPart)| > -CompletionLimit(settings)))
      ensures r.Some? ==>
        var m := GherkinMatch(host, elements, line, text).value;
        var stepPart := DropLastWord(m.rest);
        r.value == Items(settings, host, Ranked(settings, host, CompletionCandidates(m, lineNumber, text), stepPart), stepPart) &&
        OfferedFrom(settings, host, CompletionCandidates(m, lineNumber, text), r.value, stepPart)
      ensures r.Some? && settings.strictGherkinCompletion && (Indexed() || !settings.enableStepIndexing) ==>
        var m := GherkinMatch(host, elements, line, text).value;
        OfferedFrom(settings, host, OfType(elements, StrictGherkinType(host, elements, m.keyword, lineNumber, text)),
                    r.value, DropLastWord(m.rest))
    {
      match GherkinMatch(host, elements, line, text)
      case None => None
      case Some(m) =>
        var stepPart := DropLastWord(m.rest);
        var candidates := CompletionCandidates(m, lineNumber, text);
        var ranked := Ranked(settings, host, candidates, stepPart);
        var items := Items(settings, host, ranked, stepPart);
        RankedOffered(settings, host, elements, candidates, stepPart);
        RankedNonEmpty(settings, host, candidates, stepPart);
        RankedFromCandidates(settings, host, candidates, stepPart);
        if items == [] then None else Some(items)
    }

    /** A three-character prefix is typed and the prefix index has a bucket
        for it. */
    predicate PrefixBucketed(stepPart: string)
      reads this
    {
      var prefix := host.lower(Prefix(Trim(stepPart), 3));
      |prefix| >= 3 && prefix in stepsByPrefix
    }

    /** The steps `getCompletion` considers for a matched line (lines
        906-939): a bucket of an index, or a filter of the catalogue. */
    function CompletionCandidates(m: GherkinLine, lineNumber: nat, text: string): (r: seq<Step>)
      reads this
      requires Valid()
      ensures forall x :: x in r ==> x in elements
      ensures settings.strictGherkinCompletion && (Indexed() || !settings.enableStepIndexing) ==>
        r == OfType(elements, StrictGherkinType(host, elements, m.keyword, lineNumber, text))
      ensures !settings.strictGherkinCompletion && settings.enableStepIndexing && Indexed() &&
              PrefixBucketed(DropLastWord(m.rest)) ==>
        r == OfPrefix(host, elements, host.lower(Prefix(Trim(DropLastWord(m.rest)), 3)))
      ensures !settings.strictGherkinCompletion && (!settings.enableStepIndexing || !PrefixBucketed(DropLastWord(m.rest))) ==>
        r == elements
    {
      var strictType := StrictGherkinType(host, elements, m.keyword, lineNumber, text);
      if settings.strictGherkinCompletion && settings.enableStepIndexing && Indexed() then
        IndexedStrictCandidates(settings, host, elements, stepsByPrefix, strictType, DropLastWord(m.rest));
        Candidates(settings, host, elements, stepsByGherkin, stepsByPrefix, strictType, DropLastWord(m.rest))
      else if !settings.strictGherkinCompletion && settings.enableStepIndexing && Indexed() && PrefixBucketed(DropLastWord(m.rest)) then
        IndexedPrefixCandidates(settings, host, elements, stepsByGherkin, strictType, DropLastWord(m.rest));
        Candidates(settings, host, elements, stepsByGherkin, stepsByPrefix, strictType, DropLastWord(m.rest))
      else
        Candidates(settings, host, elements, stepsByGherkin, stepsByPrefix, strictType, DropLastWord(m.rest))
    }
  }
}
