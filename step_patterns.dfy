/** The text pipeline of `StepsHandler` that turns the body of a step declaration
    into the source of its matcher, its display text and its description
    (gserver/src/steps.handler.ts:294-417, 471-510). Every regular expression
    with a fixed pattern is written out as a left-to-right scanner that takes the
    same matches `String.prototype.replace` with the `g` flag takes; only
    `escapeRegExp`/`escapeRegExpForPureText` and RegExp custom parameters are
    delegated to the `Host`. */
module StepPatterns {
  import opened Wrappers
  import opened Strings
  import opened Types

  // ------------------------------------------------------------------------
  // Custom parameters (handleCustomParameters)

  /** `step.split(parameter).join(value)` for one custom parameter. */
  function ApplyCustomParameter(host: Host, step: string, p: CustomParameter): string {
    match p.parameter
    case Literal(t) => ReplaceAll(step, t, p.value)
    case Pattern(src) => Join(host.patternSplit(src, step), p.value)
  }

  /** Applies every configured custom parameter, in configuration order. */
  function HandleCustomParameters(host: Host, params: seq<CustomParameter>, step: string): string
    decreases |params|
  {
    if params == [] then step
    else HandleCustomParameters(host, params[1..], ApplyCustomParameter(host, step, params[0]))
  }

  // ------------------------------------------------------------------------
  // Parameter types (PARAMETER_REPLACEMENTS, specialParameters)

  /** The Cucumber parameter types with their regex fragments, in the order of
      `PARAMETER_REPLACEMENTS` (the Ruby interpolation comes last there). */
  const ParameterTypes: seq<(string, string)> := [
    ("{float}", "-?\\d*\\.?\\d+"),
    ("{int}", "-?\\d+"),
    ("{stringInDoubleQuotes}", "\"[^\"]+\""),
    ("{word}", "[^\\s]+"),
    ("{string}", "(\"|')[^\\1]*\\1"),
    ("{}", ".*")
  ]

  const AnyText := ".*"

  function ReplaceEach(s: string, table: seq<(string, string)>): string
    decreases |table|
  {
    if table == [] then s else ReplaceEach(ReplaceAll(s, table[0].0, table[0].1), table[1..])
  }

  /** `/#{(.*?)}/g` replaced by `.*`, scanning from `i`. */
  function RubyInterpolation(s: string, i: nat): string
    requires i <= |s|
    decreases |s| - i
  {
    if i == |s| then []
    else if s[i] == '#' && i + 1 < |s| && s[i + 1] == '{' && LazyClose(s, i + 2, '}').Some? then
      AnyText + RubyInterpolation(s, LazyClose(s, i + 2, '}').value + 1)
    else [s[i]] + RubyInterpolation(s, i + 1)
  }

  /** `processParameterTypes` (gserver/src/steps.handler.ts:360-369). */
  function ProcessParameterTypes(step: string): string {
    var typed := ReplaceEach(step, ParameterTypes);
    RubyInterpolation(typed, 0)
  }

  // ------------------------------------------------------------------------
  // Common patterns (processCommonPatterns)

  predicate IsLowerLetter(c: char) { 'a' <= c <= 'z' }

  /** Length of the run of `[a-z]` characters from `from`. */
  function LowerRun(s: string, from: nat): (n: nat)
    ensures from + n <= |s| || (from >= |s| && n == 0)
    ensures forall k :: from <= k < from + n ==> IsLowerLetter(s[k])
    ensures from + n < |s| ==> !IsLowerLetter(s[from + n])
    decreases |s| - from
  {
    if from >= |s| || !IsLowerLetter(s[from]) then 0 else 1 + LowerRun(s, from + 1)
  }

  /** Length of the run of `[a-zA-Z]` characters from `from`. */
  function LetterRun(s: string, from: nat): (n: nat)
    ensures from + n <= |s| || (from >= |s| && n == 0)
    ensures forall k :: from <= k < from + n ==> IsLetter(s[k])
    ensures from + n < |s| ==> !IsLetter(s[from + n])
    decreases |s| - from
  {
    if from >= |s| || !IsLetter(s[from]) then 0 else 1 + LetterRun(s, from + 1)
  }

  /** The length of the word of `\(([a-z]+)\)` matched at `i`, or 0 when there is none. */
  function GroupWord(s: string, i: nat): (n: nat)
    requires i < |s|
    ensures n > 0 ==> i + 1 + n < |s| && s[i] == '(' && s[i + 1 + n] == ')'
    ensures n > 0 ==> forall k :: i + 1 <= k < i + 1 + n ==> IsLowerLetter(s[k])
    ensures s[i] != '(' ==> n == 0
  {
    var n := LowerRun(s, i + 1);
    if s[i] == '(' && n > 0 && i + 1 + n < |s| && s[i + 1 + n] == ')' then n else 0
  }

  /** `/\(([a-z]+)\)/g` replaced by `($1)?`. */
  function OptionalText(s: string, i: nat): string
    requires i <= |s|
    decreases |s| - i
  {
    if i == |s| then []
    else
      var n := GroupWord(s, i);
      if n > 0 then OptionalGroup(s, i, n) + OptionalText(s, i + 2 + n)
      else [s[i]] + OptionalText(s, i + 1)
  }

  /** `($1)?` for the word of length `n` after the `(` at `i`. */
  function OptionalGroup(s: string, i: nat, n: nat): string
    requires i + 1 + n <= |s|
  {
    "(" + s[i + 1..i + 1 + n] + ")?"
  }

  /** The end of `(?:\/([a-zA-Z]+))+` repeated greedily from `j`. */
  function AlternativesEnd(s: string, j: nat): (e: nat)
    requires j <= |s|
    ensures j <= e <= |s|
  {
    if j + 1 < |s| && s[j] == '/' && IsLetter(s[j + 1]) then WordsEnd(s, j + 1) else j
  }

  /** Inside a word of the repetition: the end of its letters and of every
      further `/word`. */
  function WordsEnd(s: string, k: nat): (e: nat)
    requires k <= |s|
    ensures k <= e <= |s|
    decreases |s| - k
  {
    if k < |s| && IsLetter(s[k]) then WordsEnd(s, k + 1)
    else if k + 1 < |s| && s[k] == '/' && IsLetter(s[k + 1]) then WordsEnd(s, k + 1)
    else k
  }

  function SlashToBar(s: string): (r: string)
    ensures |r| == |s|
    ensures forall k :: 0 <= k < |s| ==> r[k] == if s[k] == '/' then '|' else s[k]
  {
    if s == [] then [] else [if s[0] == '/' then '|' else s[0]] + SlashToBar(s[1..])
  }

  /** `/([a-zA-Z]+)(?:\/([a-zA-Z]+))+/g` replaced by the match in parentheses
      with every `/` turned into `|`. */
  function AlternativeText(s: string, i: nat): string
    requires i <= |s|
    decreases |s| - i
  {
    if i == |s| then []
    else
      var j := i + LetterRun(s, i);
      if IsLetter(s[i]) && j + 1 < |s| && s[j] == '/' && IsLetter(s[j + 1]) then
        var e := AlternativesEnd(s, j);
        AlternativeGroup(s, i, e) + AlternativeText(s, e)
      else [s[i]] + AlternativeText(s, i + 1)
  }

  /** The match from `i` to `e` in parentheses, every `/` turned into `|`. */
  function AlternativeGroup(s: string, i: nat, e: nat): string
    requires i <= e <= |s|
  {
    "(" + SlashToBar(s[i..e]) + ")"
  }

  /** The negative look-ahead `(?![\d,])` at position `k`. */
  predicate NotCountAt(s: string, k: nat) {
    !(k < |s| && (IsDigit(s[k]) || s[k] == ','))
  }

  /** `/([^\\]|^){(?![\d,])(.*?)}/g` replaced by `$1.*`. The first alternative
      `[^\\]` is tried before `^`, which can only match at position 0. */
  function CucumberExpressions(s: string, i: nat): string
    requires i <= |s|
    decreases |s| - i
  {
    if i == |s| then []
    else if s[i] != '\\' && i + 1 < |s| && s[i + 1] == '{' && NotCountAt(s, i + 2)
         && LazyClose(s, i + 2, '}').Some? then
      [s[i]] + AnyText + CucumberExpressions(s, LazyClose(s, i + 2, '}').value + 1)
    else if i == 0 && s[0] == '{' && NotCountAt(s, 1) && LazyClose(s, 1, '}').Some? then
      AnyText + CucumberExpressions(s, LazyClose(s, 1, '}').value + 1)
    else [s[i]] + CucumberExpressions(s, i + 1)
  }

  /** `processCommonPatterns` (gserver/src/steps.handler.ts:372-388). */
  function ProcessCommonPatterns(step: string): string {
    var optional := OptionalText(step, 0);
    var alternatives := AlternativeText(optional, 0);
    CucumberExpressions(alternatives, 0)
  }

  /** The pattern text before escaping: parameter types, then common patterns. */
  function PatternText(step: string): string {
    ProcessCommonPatterns(ProcessParameterTypes(step))
  }

  /** `getRegTextForStep` (gserver/src/steps.handler.ts:406-417): note that the
      result is not anchored; `^`/`$` are only present if the step had them. */
  function RegTextForStep(host: Host, step: string): string {
    host.escapeRegExp(PatternText(step))
  }

  // ------------------------------------------------------------------------
  // Pure-text steps (getRegTextForPureStep)

  /** The `[pattern, change]` pairs of `specialParameters`, Ruby interpolation first. */
  function SpecialChanges(): seq<string> {
    [AnyText] + seq(|ParameterTypes|, k requires 0 <= k < |ParameterTypes| => ParameterTypes[k].1)
  }

  /** `step = step.replace(escapedChange, change)` for each change: a string
      pattern, so only the FIRST escaped occurrence is restored. */
  function RestoreChanges(host: Host, s: string, changes: seq<string>): string
    decreases |changes|
  {
    if changes == [] then s
    else RestoreChanges(host, ReplaceFirst(s, host.escapePureText(changes[0]), changes[0]), changes[1..])
  }

  /** `getRegTextForPureStep` (gserver/src/steps.handler.ts:339-357). */
  function RegTextForPureStep(host: Host, step: string): (r: string)
    ensures StartsWith(r, "^") && EndsWith(r, "$")
  {
    var substituted := ReplaceEach(RubyInterpolation(step, 0), ParameterTypes);
    var escaped := host.escapePureText(substituted);
    "^" + RestoreChanges(host, escaped, SpecialChanges()) + "$"
  }

  /** The ternary `pureTextSteps ? getRegTextForPureStep : getRegTextForStep`. */
  function RegTextFor(settings: Settings, host: Host, step: string): string {
    if settings.pureTextSteps then RegTextForPureStep(host, step) else RegTextForStep(host, step)
  }

  // ------------------------------------------------------------------------
  // Display text and description

  /** `getTextForStep` (gserver/src/steps.handler.ts:471-479): drop every
      backslash, then a leading `^` and a trailing `$`. */
  function TextForStep(step: string): (r: string)
    ensures '\\' !in r
  {
    var t := RemoveChar(step, '\\');
    var u := if StartsWith(t, "^") then t[1..] else t;
    if EndsWith(u, "$") then u[..|u| - 1] else u
  }

  /** `getDescForStep` (gserver/src/steps.handler.ts:481-489): cut at the first
      `{` (up to the end of the line) and trim. */
  function DescForStep(line: string): (r: string)
    ensures r == [] || (!IsSpace(r[0]) && !IsSpace(r[|r| - 1]))
    ensures Trim(r) == r
  {
    var r := Trim(BodyCut(line));
    TrimFixed(r);
    r
  }

  /** `replace` of the expression `\{.*` with nothing: the first `{` and the rest of its line removed. */
  function BodyCut(line: string): string {
    match IndexOf(line, "{", 0)
    case None => line
    case Some(p) => line[..p] + line[p + 1 + DotRun(line, p + 1)..]
  }

  /** On one line, the cut keeps what comes before the first `{`. */
  lemma BodyCutOfLine(line: string)
    requires forall k :: 0 <= k < |line| ==> !IsLineTerminator(line[k])
    ensures BodyCut(line) == BeforeBrace(line)
  {
    if IndexOf(line, "{", 0).Some? {
      var p := IndexOf(line, "{", 0).value;
      assert DotRun(line, p + 1) == |line| - p - 1;
      assert line[..p] + line[|line|..] == line[..p];
    }
  }

  /** Trimming a text without space at either end leaves it as it is. */
  lemma TrimFixed(r: string)
    requires r == [] || (!IsSpace(r[0]) && !IsSpace(r[|r| - 1]))
    ensures Trim(r) == r
  {
    assert TrimStart(r) == r;
  }

  /** The line before its first `{`, or the whole line. */
  function BeforeBrace(line: string): (h: string)
    ensures '{' !in h
  {
    var h := match IndexOf(line, "{", 0) case None => line case Some(p) => line[..p];
    forall k | 0 <= k < |h| ensures h[k] != '{' {
      assert h[k] == line[k];
      assert line[k..k + 1] == [line[k]];
      assert !OccursAt(line, "{", k);
    }
    h
  }

  /** `{` does not survive trimming a text without `{`. */
  lemma TrimKeepsNoBrace(s: string)
    requires '{' !in s
    ensures '{' !in Trim(s)
  {
    var t := TrimStart(s);
    assert Trim(s) == TrimEnd(t);
    SuffixKeeps(s, t, '{');
    PrefixKeeps(t, Trim(s), '{');
  }

  lemma SuffixKeeps(s: string, t: string, c: char)
    requires |t| <= |s| && t == s[|s| - |t|..] && c !in s
    ensures c !in t
  {
    forall k | 0 <= k < |t| ensures t[k] != c {
      assert t[k] == s[|s| - |t| + k];
    }
  }

  lemma PrefixKeeps(t: string, r: string, c: char)
    requires |r| <= |t| && r == t[..|r|] && c !in t
    ensures c !in r
  {
    forall k | 0 <= k < |r| ensures r[k] != c {
      assert r[k] == t[k];
    }
  }

  /** On one source line (no line terminator), the description is the line
      before its first `{`, trimmed: the function body is dropped, and the
      description contains no `{`. */
  lemma DescOfLine(line: string)
    requires forall k :: 0 <= k < |line| ==> !IsLineTerminator(line[k])
    ensures DescForStep(line) == Trim(BeforeBrace(line))
    ensures '{' !in DescForStep(line)
  {
    BodyCutOfLine(line);
    TrimKeepsNoBrace(BeforeBrace(line));
  }

  /** The description of a description is itself. */
  lemma DescIdempotent(line: string)
    requires forall k :: 0 <= k < |line| ==> !IsLineTerminator(line[k])
    ensures DescForStep(DescForStep(line)) == DescForStep(line)
  {
    var r := DescForStep(line);
    DescOfLine(line);
    NoBraceFound(r);
  }

  lemma NoBraceFound(r: string)
    requires '{' !in r
    ensures IndexOf(r, "{", 0).None?
  {
    forall k | 0 <= k ensures !OccursAt(r, "{", k) {
      if k + 1 <= |r| {
        assert r[k..k + 1] == [r[k]];
        assert r[k] in r;
      }
    }
  }

  // ------------------------------------------------------------------------
  // Alternation expansion (getStepTextInvariants)

  predicate IsParen(c: char) { c == '(' || c == ')' }

  /** A match of `/(\([^)()]+\|[^()]+\))/` spanning `s[i..j+1]`. */
  predicate IsGroup(s: string, i: nat, j: nat) {
    i < j < |s| && s[i] == '(' && s[j] == ')' &&
    (forall q :: i < q < j ==> !IsParen(s[q])) &&
    (exists q :: i + 2 <= q <= j - 2 && s[q] == '|')
  }

  /** First index at or after `from` holding a parenthesis, or `|s|`. */
  function NextParen(s: string, from: nat): (j: nat)
    requires from <= |s|
    ensures from <= j <= |s|
    ensures forall q :: from <= q < j ==> !IsParen(s[q])
    ensures j < |s| ==> IsParen(s[j])
    decreases |s| - from
  {
    if from == |s| || IsParen(s[from]) then from else NextParen(s, from + 1)
  }

  predicate HasBar(s: string, a: int, b: int)
    requires 0 <= a && b <= |s|
  {
    exists q :: a <= q < b && s[q] == '|'
  }

  /** The leftmost group at or after `from`, as the regex search finds it. */
  function FindGroup(s: string, from: nat): (r: Option<(nat, nat)>)
    ensures r.Some? ==> from <= r.value.0 && IsGroup(s, r.value.0, r.value.1)
    ensures r.Some? ==> forall k, l :: from <= k < r.value.0 ==> !IsGroup(s, k, l)
    ensures r.None? ==> forall k, l :: from <= k ==> !IsGroup(s, k, l)
    decreases |s| - from
  {
    if from >= |s| then None
    else
      var j := NextParen(s, from + 1);
      if s[from] == '(' && j < |s| && s[j] == ')' && from + 2 <= j - 1 && HasBar(s, from + 2, j - 1) then
        Some((from, j))
      else
        GroupStartsOnlyAtParen(s, from, j);
        FindGroup(s, from + 1)
  }

  lemma GroupStartsOnlyAtParen(s: string, i: nat, j: nat)
    requires i < |s| && j == NextParen(s, i + 1)
    requires !(s[i] == '(' && j < |s| && s[j] == ')' && i + 2 <= j - 1 && HasBar(s, i + 2, j - 1))
    ensures forall l :: !IsGroup(s, i, l)
  {
    forall l: nat | IsGroup(s, i, l) ensures false {
    }
  }

  /** The alternatives of a group: its contents without a leading `?:`, split at `|`. */
  function GroupAlternatives(s: string, i: nat, j: nat): (vs: seq<string>)
    requires IsGroup(s, i, j)
    ensures |vs| >= 1
    ensures forall v :: v in vs ==> |v| <= j - i - 1
    ensures forall v :: v in vs ==> forall q :: 0 <= q < |v| ==> !IsParen(v[q])
  {
    var inner := if i + 3 <= j && s[i + 1..i + 3] == "?:" then s[i + 3..j] else s[i + 1..j];
    assert forall q :: 0 <= q < |inner| ==> !IsParen(inner[q]);
    SplitPiecesShort(inner, '|');
    SplitNonEmpty(inner, "|");
    Split(inner, "|")
  }

  /** `getStepTextInvariants` (gserver/src/steps.handler.ts:491-510): expand the
      leftmost `(a|b|…)` into each alternative, recursively; no cap, duplicates kept. */
  function StepTextInvariants(step: string): (r: seq<string>)
    ensures |r| >= 1
    ensures forall w :: w in r ==> FindGroup(w, 0).None? && |w| <= |step|
    decreases |step|, 1, 0
  {
    match FindGroup(step, 0)
    case None => [step]
    case Some((i, j)) =>
      var m := step[i..j + 1];
      FirstOccurrenceIsGroup(step, i, j);
      ExpandEach(step, m, i, GroupAlternatives(step, i, j))
  }

  /** `variants.reduce((res, v) => res.concat(invariants(step.replace(m, v))), [])`. */
  function ExpandEach(step: string, m: string, i: nat, vs: seq<string>): (r: seq<string>)
    requires IndexOf(step, m, 0) == Some(i)
    requires forall v :: v in vs ==> |v| < |m|
    ensures vs != [] ==> |r| >= 1
    ensures forall w :: w in r ==> FindGroup(w, 0).None? && |w| <= |step|
    decreases |step|, 0, |vs|
  {
    if vs == [] then []
    else
      assert |ReplaceFirst(step, m, vs[0])| < |step|;
      StepTextInvariants(ReplaceFirst(step, m, vs[0])) + ExpandEach(step, m, i, vs[1..])
  }

  /** `step.replace(matchRes, variant)` replaces the group the search found: an
      earlier copy of the same text would itself have been an earlier match. */
  lemma FirstOccurrenceIsGroup(s: string, i: nat, j: nat)
    requires FindGroup(s, 0) == Some((i, j))
    ensures IndexOf(s, s[i..j + 1], 0) == Some(i)
  {
    var m := s[i..j + 1];
    assert OccursAt(s, m, i);
    forall k | 0 <= k < i && OccursAt(s, m, k) ensures false {
      CopyOfGroup(s, i, j, k);
    }
  }

  lemma CopyOfGroup(s: string, i: nat, j: nat, k: nat)
    requires IsGroup(s, i, j) && OccursAt(s, s[i..j + 1], k)
    ensures IsGroup(s, k, k + (j - i))
  {
    var m := s[i..j + 1];
    assert forall d :: 0 <= d < |m| ==> s[k + d] == m[d];
    var q :| i + 2 <= q <= j - 2 && s[q] == '|';
    assert s[k + (q - i)] == m[q - i] == '|';
    forall p | k < p < k + (j - i) ensures !IsParen(s[p]) {
      assert s[p] == m[p - k] == s[i + (p - k)];
    }
  }

  // ------------------------------------------------------------------------
  // `step.replace(matchRes, variant)` as written

  // The source passes each alternative to `replace` as a string replacement,
  // so a `$&` in it puts the whole group back (`ReplaceFirstJs`).
  // `StepTextInvariants` puts the alternative in literally instead; the two
  // agree on alternatives without `$` (`Strings.ReplaceFirstJsLiteral`).

  /** A group whose first alternative is `a$&`. */
  const LoopGroup: string := "(a$&|b)"

  lemma {:induction false} GroupAfterPlainText(s: string, from: nat, g: nat)
    requires from <= g <= |s| && forall q :: from <= q < g ==> s[q] != '('
    ensures FindGroup(s, from) == FindGroup(s, g)
    decreases g - from
  {
    if from < g {
      GroupAfterPlainText(s, from + 1, g);
    }
  }

  lemma LoopSplit()
    ensures Split("a$&|b", "|") == ["a$&", "b"]
  {
    var inner := "a$&|b";
    assert IndexOf(inner, "|", 5) == None;
    assert inner[4..5] == "b";
    assert IndexOf(inner, "|", 4) == None;
    assert inner[3..4] == "|";
    assert IndexOf(inner, "|", 3) == Some(3);
    assert IndexOf(inner, "|", 0) == Some(3);
    assert inner[4..] == "b" && inner[0..3] == "a$&";
    assert SplitFrom(inner, "|", 4) == ["b"];
    assert SplitFrom(inner, "|", 0) == ["a$&"] + SplitFrom(inner, "|", 4);
  }

  /** `LoopGroup` at position `i` is the group found from `i`. */
  lemma LoopGroupAt(s: string, i: nat)
    requires i + 7 <= |s| && s[i..i + 7] == LoopGroup
    ensures FindGroup(s, i) == Some((i, i + 6))
  {
    var g := s[i..i + 7];
    assert s[i] == g[0] == '(' && s[i + 6] == g[6] == ')';
    assert s[i + 1] == g[1] && s[i + 2] == g[2] && s[i + 3] == g[3] && s[i + 4] == g[4] && s[i + 5] == g[5];
    assert NextParen(s, i + 1) == i + 6;
    assert HasBar(s, i + 2, i + 5) by {
      assert s[i + 4] == '|';
    }
  }

  /** The alternatives of `LoopGroup` are `a$&` and `b`. */
  lemma LoopGroupSplit(s: string, i: nat)
    requires i + 7 <= |s| && s[i..i + 7] == LoopGroup && IsGroup(s, i, i + 6)
    ensures GroupAlternatives(s, i, i + 6) == ["a$&", "b"]
  {
    var g := s[i..i + 7];
    assert s[i + 1] == g[1] && s[i + 2] == g[2] && s[i + 3] == g[3] && s[i + 4] == g[4] && s[i + 5] == g[5];
    assert s[i + 1..i + 6] == g[1..6] == "a$&|b";
    assert s[i + 1..i + 3] != "?:" by {
      assert s[i + 1..i + 3][0] == g[1] == 'a';
    }
    LoopSplit();
  }

  /** After a text `p` without parentheses, `LoopGroup` is the group found,
      its alternatives are `a$&` and `b`, and the first is found at the
      group itself. */
  lemma LoopGroupFound(p: string)
    requires forall q :: 0 <= q < |p| ==> !IsParen(p[q])
    ensures FindGroup(p + LoopGroup, 0) == Some((|p|, |p| + 6))
    ensures GroupAlternatives(p + LoopGroup, |p|, |p| + 6) == ["a$&", "b"]
    ensures IndexOf(p + LoopGroup, LoopGroup, 0) == Some(|p|)
  {
    var s, i := p + LoopGroup, |p|;
    SliceOfConcat(p, LoopGroup);
    NoOpenBefore(p, LoopGroup);
    LoopGroupAt(s, i);
    LoopGroupSplit(s, i);
    FirstGroupAfterPlain(s, i, i + 6);
  }

  /** A group found after text without `(` is the first group, and its text
      first occurs there. */
  lemma FirstGroupAfterPlain(s: string, i: nat, j: nat)
    requires i <= |s| && forall q :: 0 <= q < i ==> s[q] != '('
    requires FindGroup(s, i) == Some((i, j))
    ensures FindGroup(s, 0) == Some((i, j))
    ensures IndexOf(s, s[i..j + 1], 0) == Some(i)
  {
    GroupAfterPlainText(s, 0, i);
    FirstOccurrenceIsGroup(s, i, j);
  }

  lemma SliceOfConcat<T>(p: seq<T>, t: seq<T>)
    ensures (p + t)[|p|..|p| + |t|] == t
    ensures (p + t)[..|p|] == p && (p + t)[|p| + |t|..] == []
  {
  }

  lemma NoOpenBefore(p: string, t: string)
    requires forall q :: 0 <= q < |p| ==> !IsParen(p[q])
    ensures forall q :: 0 <= q < |p| ==> (p + t)[q] != '('
  {
    forall q | 0 <= q < |p| ensures (p + t)[q] != '(' {
      assert (p + t)[q] == p[q];
    }
  }

  /** As written, the alternative `a$&` of `LoopGroup` after a text `p`
      without parentheses gives `p + "a" + LoopGroup`: the same group again,
      after a longer text without parentheses. The expansion of the first
      alternative therefore recurses without end. */
  lemma InvariantsAsWrittenLoop(p: string)
    requires forall q :: 0 <= q < |p| ==> !IsParen(p[q])
    ensures FindGroup(p + LoopGroup, 0) == Some((|p|, |p| + 6))
    ensures (p + LoopGroup)[|p|..|p| + 7] == LoopGroup
    ensures GroupAlternatives(p + LoopGroup, |p|, |p| + 6)[0] == "a$&"
    ensures ReplaceFirstJs(p + LoopGroup, LoopGroup, "a$&") == (p + "a") + LoopGroup
    ensures forall q :: 0 <= q < |p + "a"| ==> !IsParen((p + "a")[q])
  {
    LoopGroupFound(p);
    SliceOfConcat(p, LoopGroup);
    LoopReplacedAsWritten(p);
    AlternativePlain();
    PlainAppend(p, "a");
  }

  lemma LoopReplacedAsWritten(p: string)
    requires forall q :: 0 <= q < |p| ==> !IsParen(p[q])
    ensures ReplaceFirstJs(p + LoopGroup, LoopGroup, "a$&") == (p + "a") + LoopGroup
  {
    LoopGroupFound(p);
    SliceOfConcat(p, LoopGroup);
    SubstitutionOfLoop(p);
    ConcatAssoc3(p, "a", LoopGroup);
  }

  lemma SubstitutionOfLoop(p: string)
    ensures Substitution("a$&", LoopGroup, p, "") == "a" + LoopGroup
  {
    assert Substitution("a$&", LoopGroup, p, "") == "a" + Substitution("$&", LoopGroup, p, "");
    assert Substitution("$&", LoopGroup, p, "") == LoopGroup + Substitution("", LoopGroup, p, "");
  }

  lemma ConcatAssoc3(a: string, b: string, c: string)
    ensures a + (b + c) + [] == (a + b) + c
  {
  }

  lemma PlainAppend(p: string, t: string)
    requires forall q :: 0 <= q < |p| ==> !IsParen(p[q])
    requires forall q :: 0 <= q < |t| ==> !IsParen(t[q])
    ensures forall q :: 0 <= q < |p + t| ==> !IsParen((p + t)[q])
  {
    forall q | 0 <= q < |p + t| ensures !IsParen((p + t)[q]) {
      if q < |p| {
        assert (p + t)[q] == p[q];
      } else {
        assert (p + t)[q] == t[q - |p|];
      }
    }
  }

  /** With the alternative put in literally, the same step gives `p + "a$&"`,
      which has no group left: the expansion stops. */
  lemma InvariantsLiteralStops(p: string)
    requires forall q :: 0 <= q < |p| ==> !IsParen(p[q])
    ensures ReplaceFirst(p + LoopGroup, LoopGroup, "a$&") == p + "a$&"
    ensures FindGroup(p + "a$&", 0).None?
  {
    LoopReplacedLiterally(p);
    AlternativePlain();
    PlainAppend(p, "a$&");
    NoParenNoGroup(p + "a$&");
  }

  lemma AlternativePlain()
    ensures forall q :: 0 <= q < |"a"| ==> !IsParen("a"[q])
    ensures forall q :: 0 <= q < |"a$&"| ==> !IsParen("a$&"[q])
  {
    var t := "a$&";
    assert t[0] == 'a' && t[1] == '$' && t[2] == '&';
  }

  lemma NoParenNoGroup(t: string)
    requires forall q :: 0 <= q < |t| ==> !IsParen(t[q])
    ensures FindGroup(t, 0).None?
  {
  }

  lemma LoopReplacedLiterally(p: string)
    requires forall q :: 0 <= q < |p| ==> !IsParen(p[q])
    ensures ReplaceFirst(p + LoopGroup, LoopGroup, "a$&") == p + "a$&"
  {
    LoopGroupFound(p);
    SliceOfConcat(p, LoopGroup);
  }

  // ------------------------------------------------------------------------
  // Properties

  lemma AbsentFirstChar(s: string, t: string)
    requires t != [] && t[0] !in s
    ensures IndexOf(s, t, 0).None?
  {
    forall k: nat | OccursAt(s, t, k) ensures false {
    }
  }

  /** A literal custom parameter replaces every occurrence: the step is the
      value-free pieces joined by the parameter, and the result is the same
      pieces joined by the value. */
  lemma LiteralParameterReplacesEvery(host: Host, step: string, t: string, v: string)
    requires t != []
    ensures var pieces := Split(step, t);
      Join(pieces, t) == step &&
      (forall p :: p in pieces ==> IndexOf(p, t, 0).None?) &&
      ApplyCustomParameter(host, step, CustomParameter(Literal(t), v)) == Join(pieces, v)
  {
    JoinSplit(step, t);
    SplitPiecesAvoid(step, t);
  }

  /** The custom parameters apply in configuration order: one more parameter
      at the end is applied to what the earlier ones produced. */
  lemma {:induction false} CustomParametersInOrder(host: Host, params: seq<CustomParameter>, p: CustomParameter, step: string)
    ensures HandleCustomParameters(host, params + [p], step) ==
            ApplyCustomParameter(host, HandleCustomParameters(host, params, step), p)
    decreases |params|
  {
    if params == [] {
      assert [] + [p] == [p];
    } else {
      assert (params + [p])[1..] == params[1..] + [p];
      CustomParametersInOrder(host, params[1..], p, ApplyCustomParameter(host, step, params[0]));
    }
  }

  /** The escaped changes are restored in the order of the table: one more
      change at the end restores its first escaped occurrence in what the
      earlier ones left. */
  lemma {:induction false} RestoreChangesInOrder(host: Host, s: string, changes: seq<string>, c: string)
    ensures RestoreChanges(host, s, changes + [c]) ==
            ReplaceFirst(RestoreChanges(host, s, changes), host.escapePureText(c), c)
    decreases |changes|
  {
    if changes == [] {
      assert [] + [c] == [c];
    } else {
      assert (changes + [c])[1..] == changes[1..] + [c];
      RestoreChangesInOrder(host, ReplaceFirst(s, host.escapePureText(changes[0]), changes[0]), changes[1..], c);
    }
  }

  lemma {:induction false} ReplaceEachAbsent(s: string, table: seq<(string, string)>)
    requires forall e :: e in table ==> e.0 != [] && e.0[0] !in s
    ensures ReplaceEach(s, table) == s
    decreases |table|
  {
    if table != [] {
      AbsentFirstChar(s, table[0].0);
      ReplaceEachAbsent(s, table[1..]);
    }
  }

  lemma {:induction false} RubyAbsent(s: string, i: nat)
    requires i <= |s| && '{' !in s
    ensures RubyInterpolation(s, i) == s[i..]
    decreases |s| - i
  {
    if i < |s| {
      RubyAbsent(s, i + 1);
      assert s[i..] == [s[i]] + s[i + 1..];
    }
  }

  lemma {:induction false} OptionalAbsent(s: string, i: nat)
    requires i <= |s| && '(' !in s
    ensures OptionalText(s, i) == s[i..]
    decreases |s| - i
  {
    if i < |s| {
      OptionalAbsent(s, i + 1);
      assert s[i..] == [s[i]] + s[i + 1..];
    }
  }

  lemma {:induction false} AlternativeAbsent(s: string, i: nat)
    requires i <= |s| && '/' !in s
    ensures AlternativeText(s, i) == s[i..]
    decreases |s| - i
  {
    if i < |s| {
      AlternativeAbsent(s, i + 1);
      assert s[i..] == [s[i]] + s[i + 1..];
    }
  }

  lemma {:induction false} CucumberAbsent(s: string, i: nat)
    requires i <= |s| && '{' !in s
    ensures CucumberExpressions(s, i) == s[i..]
    decreases |s| - i
  {
    if i < |s| {
      CucumberAbsent(s, i + 1);
      assert s[i..] == [s[i]] + s[i + 1..];
    }
  }

  /** Step text without parameter braces, parentheses or slashes is its own pattern. */
  lemma PlainStepIsItsOwnPattern(step: string)
    requires '{' !in step && '(' !in step && '/' !in step
    ensures PatternText(step) == step
  {
    ParameterTypesAbsent(step);
    CommonPatternsAbsent(step);
  }

  lemma ParameterTypesAbsent(step: string)
    requires '{' !in step
    ensures ProcessParameterTypes(step) == step
  {
    assert forall e :: e in ParameterTypes ==> e.0 != [] && e.0[0] == '{';
    ReplaceEachAbsent(step, ParameterTypes);
    RubyAbsent(step, 0);
    assert step[0..] == step;
  }

  lemma CommonPatternsAbsent(step: string)
    requires '{' !in step && '(' !in step && '/' !in step
    ensures ProcessCommonPatterns(step) == step
  {
    OptionalAbsent(step, 0);
    assert step[0..] == step;
    AlternativeAbsent(step, 0);
    CucumberAbsent(step, 0);
  }

  lemma {:induction false} RemoveCharConcat(a: string, b: string, c: char)
    ensures RemoveChar(a + b, c) == RemoveChar(a, c) + RemoveChar(b, c)
    decreases |a|
  {
    if a != [] {
      var h := if a[0] == c then [] else [a[0]];
      assert (a + b)[0] == a[0];
      assert (a + b)[1..] == a[1..] + b;
      assert RemoveChar(a + b, c) == h + RemoveChar(a[1..] + b, c);
      RemoveCharConcat(a[1..], b, c);
      assert RemoveChar(a, c) == h + RemoveChar(a[1..], c);
      assert h + (RemoveChar(a[1..], c) + RemoveChar(b, c)) == (h + RemoveChar(a[1..], c)) + RemoveChar(b, c);
    } else {
      assert a + b == b;
    }
  }

  lemma {:induction false} RemoveAbsentChar(s: string, c: char)
    requires c !in s
    ensures RemoveChar(s, c) == s
  {
    if s != [] {
      RemoveAbsentChar(s[1..], c);
    }
  }

  /** The optional-text rewrite only inserts `?` marks: with every `?` deleted,
      input and output agree. */
  lemma OptionalOnlyAddsMarks(s: string, i: nat)
    requires i <= |s|
    ensures RemoveChar(OptionalText(s, i), '?') == RemoveChar(s[i..], '?')
  {
    MarksFrom(s, i);
  }

  /** From `i` on, the rewrite only inserts `?`. */
  predicate MarksOnly(s: string, i: nat)
    requires i <= |s|
  {
    RemoveChar(OptionalText(s, i), '?') == RemoveChar(s[i..], '?')
  }

  lemma {:induction false} MarksFrom(s: string, i: nat)
    requires i <= |s|
    ensures MarksOnly(s, i)
    decreases |s| - i
  {
    if i < |s| {
      var n := GroupWord(s, i);
      if n > 0 {
        MarksFrom(s, i + 2 + n);
        OptionalStep(s, i, n);
      } else {
        MarksFrom(s, i + 1);
        LiteralStep(s, i);
      }
    }
  }

  /** One `(word)` rewritten to `(word)?`. */
  lemma OptionalStep(s: string, i: nat, n: nat)
    requires i < |s| && n == GroupWord(s, i) && n > 0
    requires MarksOnly(s, i + 2 + n)
    ensures MarksOnly(s, i)
  {
    var word, tail, rest := s[i + 1..i + 1 + n], s[i + 2 + n..], OptionalText(s, i + 2 + n);
    LowerWordUnmarked(s, i + 1, n);
    OptionalUnfold(s, i, n);
    assert OptionalGroup(s, i, n) == "(" + word + ")?";
    SliceMarked(s, i, n);
    MarkedPiece(word, tail, rest);
    assert RemoveChar(OptionalText(s, i), '?') == RemoveChar("(" + word + ")?" + rest, '?');
  }

  lemma {:induction false} OptionalUnfold(s: string, i: nat, n: nat)
    requires i < |s| && n == GroupWord(s, i) && n > 0
    ensures OptionalText(s, i) == OptionalGroup(s, i, n) + OptionalText(s, i + 2 + n)
  {
  }

  lemma SliceMarked(s: string, i: nat, n: nat)
    requires i + 1 + n < |s| && s[i] == '(' && s[i + 1 + n] == ')'
    ensures s[i..] == "(" + s[i + 1..i + 1 + n] + ")" + s[i + 2 + n..]
  {
    assert s[i..] == s[i..i + 1] + s[i + 1..i + 1 + n] + s[i + 1 + n..i + 2 + n] + s[i + 2 + n..];
  }

  /** One character copied. */
  lemma LiteralStep(s: string, i: nat)
    requires i < |s| && GroupWord(s, i) == 0
    requires MarksOnly(s, i + 1)
    ensures MarksOnly(s, i)
  {
    var rest := OptionalText(s, i + 1);
    assert OptionalText(s, i) == [s[i]] + rest;
    assert s[i..] == [s[i]] + s[i + 1..];
    SameAfterHead(s[i], rest, s[i + 1..], '?');
  }

  lemma LowerWordUnmarked(s: string, from: nat, n: nat)
    requires from + n <= |s| && forall k :: from <= k < from + n ==> IsLowerLetter(s[k])
    ensures '?' !in s[from..from + n]
  {
    var word := s[from..from + n];
    forall k | 0 <= k < |word| ensures word[k] != '?' {
      assert word[k] == s[from + k];
    }
  }

  lemma SameAfterHead(h: char, a: string, b: string, c: char)
    requires RemoveChar(a, c) == RemoveChar(b, c)
    ensures RemoveChar([h] + a, c) == RemoveChar([h] + b, c)
  {
    assert ([h] + a)[1..] == a;
    assert ([h] + b)[1..] == b;
  }

  lemma MarkedPiece(word: string, tail: string, rest: string)
    requires '?' !in word
    requires RemoveChar(rest, '?') == RemoveChar(tail, '?')
    ensures RemoveChar("(" + word + ")?" + rest, '?') == RemoveChar("(" + word + ")" + tail, '?')
  {
    var marked := "(" + word + ")";
    var mark := "?" + rest;
    assert RemoveChar(marked, '?') == marked by {
      assert '?' !in marked;
      RemoveAbsentChar(marked, '?');
    }
    assert RemoveChar(mark, '?') == RemoveChar(rest, '?') by {
      assert mark[1..] == rest;
    }
    RemoveCharConcat(marked, tail, '?');
    RemoveCharConcat(marked, mark, '?');
    assert "(" + word + ")?" + rest == marked + mark;
  }

  /** Anchors and backslashes are what the display text drops. */
  lemma TextOfAnchoredStep(x: string)
    requires '\\' !in x
    ensures TextForStep("^" + x + "$") == x
  {
    RemoveCharConcat("^" + x, "$", '\\');
    RemoveCharConcat("^", x, '\\');
    RemoveAbsentChar(x, '\\');
  }

  // ------------------------------------------------------------------------
  // What each rewrite produces where it applies

  /** A parameter-type name: a `{`, text without braces, and a closing `}`. */
  predicate Braced(t: string) {
    |t| >= 2 && t[0] == '{' && t[|t| - 1] == '}' &&
    (forall q :: 0 < q < |t| ==> t[q] != '{') &&
    (forall q :: 0 <= q < |t| - 1 ==> t[q] != '}')
  }

  /** The keys of a replacement table are distinct parameter-type names, and
      no fragment holds a `{`. */
  predicate BracedTable(table: seq<(string, string)>) {
    (forall k :: 0 <= k < |table| ==> Braced(table[k].0) && '{' !in table[k].1) &&
    (forall j, k :: 0 <= j < k < |table| ==> table[j].0 != table[k].0)
  }

  lemma ParameterTypesBraced()
    ensures BracedTable(ParameterTypes)
  {
    ParameterTypeNames();
    ParameterTypeFragments();
    ParameterTypeNamesDiffer();
  }

  lemma ParameterTypeNames()
    ensures forall k :: 0 <= k < |ParameterTypes| ==> Braced(ParameterTypes[k].0)
  {
    var t := ParameterTypes;
    assert Braced(t[0].0) && Braced(t[1].0) && Braced(t[2].0);
    assert Braced(t[3].0) && Braced(t[4].0) && Braced(t[5].0);
  }

  lemma ParameterTypeFragments()
    ensures forall k :: 0 <= k < |ParameterTypes| ==> '{' !in ParameterTypes[k].1
  {
  }

  /** The six names have six different lengths. */
  lemma ParameterTypeNamesDiffer()
    ensures forall j, k :: 0 <= j < k < |ParameterTypes| ==> ParameterTypes[j].0 != ParameterTypes[k].0
  {
    var t := ParameterTypes;
    assert forall j, k :: 0 <= j < k < |t| ==> |t[j].0| != |t[k].0|;
  }

  /** The only `{` of `x + t + y` is the first character of `t`. */
  lemma OnlyBraceAt(x: string, t: string, y: string, q: nat)
    requires Braced(t) && '{' !in x && '{' !in y
    requires q < |x + t + y| && (x + t + y)[q] == '{'
    ensures q == |x|
  {
    var s := x + t + y;
    assert forall p :: 0 <= p < |x| ==> s[p] == x[p];
    assert forall p :: |x| <= p < |x| + |t| ==> s[p] == t[p - |x|];
    assert forall p :: |x| + |t| <= p < |s| ==> s[p] == y[p - |x| - |t|];
  }

  /** Two parameter-type names occurring at the same place are the same name. */
  lemma BracedAtSamePlace(s: string, p: nat, t: string, u: string)
    requires Braced(t) && Braced(u) && OccursAt(s, t, p) && OccursAt(s, u, p)
    ensures t == u
  {
    var m := if |u| < |t| then |u| else |t|;
    assert u[m - 1] == s[p + m - 1] == t[m - 1];
    assert |u| == |t|;
    assert t == s[p..p + |t|] == u;
  }

  /** In `x + t + y`, the name `t` occurs once, at `|x|`, and no other name occurs. */
  lemma BracedOccurrences(x: string, t: string, y: string, u: string, q: nat)
    requires Braced(t) && Braced(u) && '{' !in x && '{' !in y
    requires OccursAt(x + t + y, u, q)
    ensures q == |x| && u == t
  {
    var s := x + t + y;
    assert s[q] == s[q..q + |u|][0] == '{';
    OnlyBraceAt(x, t, y, q);
    assert OccursAt(s, t, |x|) by {
      assert s[|x|..|x| + |t|] == t;
    }
    BracedAtSamePlace(s, q, t, u);
  }

  /** A parameter-type name is replaced at its one occurrence. */
  lemma BracedReplaced(x: string, t: string, y: string, v: string)
    requires Braced(t) && '{' !in x && '{' !in y
    ensures ReplaceAll(x + t + y, t, v) == x + v + y
  {
    var s := x + t + y;
    assert OccursAt(s, t, |x|) by {
      assert s[|x|..|x| + |t|] == t;
    }
    forall q: nat | OccursAt(s, t, q) ensures q == |x| {
      BracedOccurrences(x, t, y, t, q);
    }
    assert IndexOf(s, t, 0) == Some(|x|);
    SplitFromStep(s, t, 0, |x|);
    assert IndexOf(s, t, |x| + |t|).None?;
    SplitFromLast(s, t, |x| + |t|);
    assert s[0..|x|] == x && s[|x| + |t|..] == y;
    assert Split(s, t) == [x, y];
    JoinCons(x, [y], v);
  }

  /** A name other than `t` does not occur in `x + t + y`. */
  lemma OtherBracedAbsent(x: string, t: string, y: string, u: string, v: string)
    requires Braced(t) && Braced(u) && u != t && '{' !in x && '{' !in y
    ensures ReplaceAll(x + t + y, u, v) == x + t + y
  {
    forall q: nat | OccursAt(x + t + y, u, q) ensures false {
      BracedOccurrences(x, t, y, u, q);
    }
    ReplaceAllAbsent(x + t + y, u, v);
  }

  /** A table of parameter types rewrites the one name in `x + t + y` into its fragment. */
  lemma {:induction false} TableReplacesName(x: string, k: nat, y: string, table: seq<(string, string)>)
    requires BracedTable(table) && k < |table| && '{' !in x && '{' !in y
    ensures ReplaceEach(x + table[k].0 + y, table) == x + table[k].1 + y
    decreases |table|
  {
    assert BracedTable(table[1..]);
    if k == 0 {
      BracedReplaced(x, table[0].0, y, table[0].1);
      var r := x + table[0].1 + y;
      forall e | e in table[1..] ensures e.0 != [] && e.0[0] !in r {
        assert Braced(e.0);
      }
      ReplaceEachAbsent(r, table[1..]);
    } else {
      OtherBracedAbsent(x, table[k].0, y, table[0].0, table[0].1);
      TableReplacesName(x, k - 1, y, table[1..]);
    }
  }

  /** A table leaves alone a parameter-type name that is not one of its keys. */
  lemma {:induction false} TableKeepsName(x: string, t: string, y: string, table: seq<(string, string)>)
    requires BracedTable(table) && Braced(t) && '{' !in x && '{' !in y
    requires forall k :: 0 <= k < |table| ==> table[k].0 != t
    ensures ReplaceEach(x + t + y, table) == x + t + y
    decreases |table|
  {
    if table != [] {
      assert BracedTable(table[1..]);
      OtherBracedAbsent(x, t, y, table[0].0, table[0].1);
      TableKeepsName(x, t, y, table[1..]);
    }
  }

  /** `{int}`, `{float}`, `{string}` and the other parameter types become
      their regex fragments. */
  lemma ParameterTypeReplaced(a: string, k: nat, b: string)
    requires k < |ParameterTypes| && '{' !in a && '{' !in b
    ensures ProcessParameterTypes(a + ParameterTypes[k].0 + b) == a + ParameterTypes[k].1 + b
  {
    ParameterTypesBraced();
    TableReplacesName(a, k, b, ParameterTypes);
    var r := a + ParameterTypes[k].1 + b;
    RubyAbsent(r, 0);
    assert r[0..] == r;
  }

  /** A `#{` starts at `p`. */
  predicate RubyOpens(s: string, p: nat)
    requires p < |s|
  {
    s[p] == '#' && p + 1 < |s| && s[p + 1] == '{'
  }

  /** The Ruby scan copies a stretch in which no `#{` starts. */
  lemma {:induction false} RubyCopies(s: string, i: nat, j: nat)
    requires i <= j <= |s|
    requires forall p :: i <= p < j ==> !RubyOpens(s, p)
    ensures RubyInterpolation(s, i) == s[i..j] + RubyInterpolation(s, j)
    decreases j - i
  {
    if i < j {
      RubyCopies(s, i + 1, j);
      RubyLiteral(s, i);
      ConsSlice(s, i, j, RubyInterpolation(s, j));
    }
  }

  /** Where no `#{` starts, the Ruby scan copies one character. */
  lemma RubyLiteral(s: string, i: nat)
    requires i < |s| && !RubyOpens(s, i)
    ensures RubyInterpolation(s, i) == [s[i]] + RubyInterpolation(s, i + 1)
  {
  }

  /** `#{w}` becomes `.*`, and the text around it is kept. */
  lemma RubyReplaced(a: string, w: string, b: string)
    requires '{' !in a && '{' !in b
    requires forall q :: 0 <= q < |w| ==> w[q] != '}' && !IsLineTerminator(w[q])
    ensures RubyInterpolation(a + "#{" + w + "}" + b, 0) == a + AnyText + b
  {
    var m := "#{" + w + "}";
    Regroup(a, "#{", w, "}", b);
    RubyLayout(a, w, b);
    PartsOf(a, m, b);
    RubyOneMatch(a + m + b, |a|, |a| + |m| - 1);
  }

  /** Where `a + "#{" + w + "}" + b` may and may not match `#{(.*?)}`. */
  lemma RubyLayout(a: string, w: string, b: string)
    requires '{' !in a && '{' !in b
    requires forall q :: 0 <= q < |w| ==> w[q] != '}' && !IsLineTerminator(w[q])
    ensures var m := "#{" + w + "}"; var s, e := a + m + b, |a| + |m| - 1;
      |a| < e < |s| && RubyOpens(s, |a|) && LazyClose(s, |a| + 2, '}') == Some(e) &&
      (forall p :: 0 <= p < |a| ==> !RubyOpens(s, p)) &&
      (forall p :: e < p < |s| ==> !RubyOpens(s, p))
  {
    var m := "#{" + w + "}";
    var s, e := a + m + b, |a| + |m| - 1;
    InMiddle(a, m, b, 0);
    InMiddle(a, m, b, 1);
    InMiddle(a, m, b, |m| - 1);
    forall p | 0 <= p < |a| ensures !RubyOpens(s, p) {
      if p + 1 < |a| {
        InFront(a, m, b, p + 1);
      }
    }
    forall k | |a| + 2 <= k < e ensures s[k] != '}' && !IsLineTerminator(s[k]) {
      InMiddle(a, m, b, k - |a|);
      InMiddle("#{", w, "}", k - |a| - 2);
    }
    LazyCloseAt(s, |a| + 2, '}', e);
    forall p | e < p < |s| ensures !RubyOpens(s, p) {
      if p + 1 < |s| {
        InBack(a, m, b, p + 1 - |a| - |m|);
      }
    }
  }

  /** A text with one `#{…}`, closing at `e`: that stretch becomes `.*`. */
  lemma RubyOneMatch(s: string, i: nat, e: nat)
    requires i < e < |s| && RubyOpens(s, i) && LazyClose(s, i + 2, '}') == Some(e)
    requires forall p :: 0 <= p < i ==> !RubyOpens(s, p)
    requires forall p :: e < p < |s| ==> !RubyOpens(s, p)
    ensures RubyInterpolation(s, 0) == s[..i] + AnyText + s[e + 1..]
  {
    RubyCopies(s, 0, i);
    RubyMatch(s, i, e);
    RubyToEnd(s, e + 1);
    Chain(RubyInterpolation(s, 0), RubyInterpolation(s, i), RubyInterpolation(s, e + 1), s[..i], AnyText, s[e + 1..]);
  }

  /** The Ruby scan copies the rest of a text in which no `#{` starts. */
  lemma RubyToEnd(s: string, i: nat)
    requires i <= |s| && forall p :: i <= p < |s| ==> !RubyOpens(s, p)
    ensures RubyInterpolation(s, i) == s[i..]
  {
    RubyCopies(s, i, |s|);
    assert RubyInterpolation(s, |s|) == [];
    assert s[i..|s|] + [] == s[i..];
  }

  /** At a `#{` that closes at `e`, the Ruby scan emits `.*` and goes on after `e`. */
  lemma RubyMatch(s: string, i: nat, e: nat)
    requires i < |s| && RubyOpens(s, i) && LazyClose(s, i + 2, '}') == Some(e)
    ensures RubyInterpolation(s, i) == AnyText + RubyInterpolation(s, e + 1)
  {
  }

  /** `#{w}` becomes `.*` under `processParameterTypes`, unless `{w}` is itself
      one of the parameter types, which are replaced first. */
  lemma RubyParameterReplaced(a: string, w: string, b: string)
    requires '{' !in a && '{' !in b && '{' !in w
    requires forall q :: 0 <= q < |w| ==> w[q] != '}' && !IsLineTerminator(w[q])
    requires forall k :: 0 <= k < |ParameterTypes| ==> ParameterTypes[k].0 != "{" + w + "}"
    ensures ProcessParameterTypes(a + "#{" + w + "}" + b) == a + AnyText + b
  {
    var t := "{" + w + "}";
    BracedName(w);
    ParameterTypesBraced();
    TableKeepsName(a + "#", t, b, ParameterTypes);
    RubyTextRegroup(a, w, b);
    RubyReplaced(a, w, b);
  }

  lemma BracedName(w: string)
    requires '{' !in w && '}' !in w
    ensures Braced("{" + w + "}")
  {
    var t := "{" + w + "}";
    forall q | 0 < q < |t| ensures t[q] != '{' {
      assert q <= |w| ==> t[q] == w[q - 1];
    }
    forall q | 0 <= q < |t| - 1 ensures t[q] != '}' {
      assert 0 < q ==> t[q] == w[q - 1];
    }
  }

  lemma RubyTextRegroup(a: string, w: string, b: string)
    ensures a + "#{" + w + "}" + b == (a + "#") + ("{" + w + "}") + b
  {
    assert "#{" == "#" + "{";
  }

  /** A run of `[a-z]` of length `n` followed by anything else has length `n`. */
  lemma {:induction false} LowerRunIs(s: string, from: nat, n: nat)
    requires from + n <= |s| && forall k :: from <= k < from + n ==> IsLowerLetter(s[k])
    requires from + n == |s| || !IsLowerLetter(s[from + n])
    ensures LowerRun(s, from) == n
    decreases n
  {
    if n > 0 {
      LowerRunIs(s, from + 1, n - 1);
    }
  }

  /** A run of `[a-zA-Z]` of length `n` followed by anything else has length `n`. */
  lemma {:induction false} LetterRunIs(s: string, from: nat, n: nat)
    requires from + n <= |s| && forall k :: from <= k < from + n ==> IsLetter(s[k])
    requires from + n == |s| || !IsLetter(s[from + n])
    ensures LetterRun(s, from) == n
    decreases n
  {
    if n > 0 {
      LetterRunIs(s, from + 1, n - 1);
    }
  }

  /** The optional-text scan copies a stretch without `(`. */
  lemma {:induction false} OptionalCopies(s: string, i: nat, j: nat)
    requires i <= j <= |s| && forall p :: i <= p < j ==> s[p] != '('
    ensures OptionalText(s, i) == s[i..j] + OptionalText(s, j)
    decreases j - i
  {
    if i < j {
      OptionalCopies(s, i + 1, j);
      OptionalLiteral(s, i);
      ConsSlice(s, i, j, OptionalText(s, j));
    }
  }

  /** Where no `(` stands, the optional-text scan copies one character. */
  lemma OptionalLiteral(s: string, i: nat)
    requires i < |s| && s[i] != '('
    ensures OptionalText(s, i) == [s[i]] + OptionalText(s, i + 1)
  {
  }

  /** `(word)` becomes `(word)?`, and the text around it is kept. */
  lemma OptionalReplaced(a: string, w: string, b: string)
    requires '(' !in a && '(' !in b
    requires w != [] && forall q :: 0 <= q < |w| ==> IsLowerLetter(w[q])
    ensures OptionalText(a + "(" + w + ")" + b, 0) == a + "(" + w + ")?" + b
  {
    var m, g := "(" + w + ")", "(" + w + ")?";
    var s := a + m + b;
    OptionalLayout(a, w, b);
    PartsOf(a, m, b);
    OptionalOneMatch(s, |a|, |w|);
    assert |m| == |w| + 2;
    assert OptionalText(s, 0) == a + g + b;
    Regroup(a, "(", w, ")", b);
    Regroup(a, "(", w, ")?", b);
  }

  /** Where `a + "(" + w + ")" + b` may and may not match `\(([a-z]+)\)`. */
  lemma OptionalLayout(a: string, w: string, b: string)
    requires '(' !in a && '(' !in b
    requires w != [] && forall q :: 0 <= q < |w| ==> IsLowerLetter(w[q])
    ensures var m := "(" + w + ")"; var s := a + m + b;
      |a| < |s| && GroupWord(s, |a|) == |w| && OptionalGroup(s, |a|, |w|) == "(" + w + ")?" &&
      (forall p :: 0 <= p < |a| ==> s[p] != '(') &&
      (forall p :: |a| + 2 + |w| <= p < |s| ==> s[p] != '(')
  {
    var m := "(" + w + ")";
    var s := a + m + b;
    PartsOf(a, m, b);
    InMiddle(a, m, b, 0);
    InMiddle(a, m, b, |m| - 1);
    forall p | 0 <= p < |a| ensures s[p] != '(' {
      InFront(a, m, b, p);
    }
    forall k | |a| + 1 <= k < |a| + 1 + |w| ensures IsLowerLetter(s[k]) {
      InMiddle(a, m, b, k - |a|);
      InMiddle("(", w, ")", k - |a| - 1);
    }
    LowerRunIs(s, |a| + 1, |w|);
    assert s[|a| + 1..|a| + 1 + |w|] == w by {
      assert s[|a|..|a| + |m|][1..1 + |w|] == m[1..1 + |w|] == w;
    }
    forall p | |a| + 2 + |w| <= p < |s| ensures s[p] != '(' {
      InBack(a, m, b, p - |a| - |m|);
    }
  }

  /** A text with one `(word)` at `i`: it becomes `(word)?`. */
  lemma OptionalOneMatch(s: string, i: nat, n: nat)
    requires i < |s| && n == GroupWord(s, i) && n > 0
    requires forall p :: 0 <= p < i ==> s[p] != '('
    requires forall p :: i + 2 + n <= p < |s| ==> s[p] != '('
    ensures OptionalText(s, 0) == s[..i] + OptionalGroup(s, i, n) + s[i + 2 + n..]
  {
    var tail := OptionalText(s, i + 2 + n);
    OptionalToEnd(s, i + 2 + n);
    assert tail == s[i + 2 + n..];
    OptionalCopies(s, 0, i);
    assert s[0..i] == s[..i];
    OptionalUnfold(s, i, n);
    Chain(OptionalText(s, 0), OptionalText(s, i), tail, s[..i], OptionalGroup(s, i, n), s[i + 2 + n..]);
  }

  /** The optional-text scan copies the rest of a text without `(`. */
  lemma OptionalToEnd(s: string, i: nat)
    requires i <= |s| && forall p :: i <= p < |s| ==> s[p] != '('
    ensures OptionalText(s, i) == s[i..]
  {
    OptionalCopies(s, i, |s|);
    assert OptionalText(s, |s|) == [];
    assert s[i..|s|] + [] == s[i..];
  }

  /** Words of `[a-zA-Z]`, none empty. */
  predicate Words(ws: seq<string>) {
    forall k :: 0 <= k < |ws| ==> ws[k] != [] && forall q :: 0 <= q < |ws[k]| ==> IsLetter(ws[k][q])
  }

  /** No `/` stands in `s[i..j]`. */
  predicate NoSlash(s: string, i: nat, j: nat)
    requires i <= j <= |s|
  {
    forall p :: i <= p < j ==> s[p] != '/'
  }

  /** The alternatives scan copies a stretch without `/` that does not end
      inside a word. */
  lemma {:induction false} AlternativeCopies(s: string, i: nat, j: nat)
    requires i <= j <= |s| && NoSlash(s, i, j)
    requires j == |s| || j == i || !IsLetter(s[j - 1])
    ensures AlternativeText(s, i) == s[i..j] + AlternativeText(s, j)
    decreases j - i
  {
    if i < j {
      var n := LetterRun(s, i);
      if IsLetter(s[i]) && i + n < |s| {
        assert j < |s| ==> i + n < j;
        assert s[i + n] != '/';
      }
      AlternativeCopies(s, i + 1, j);
      AlternativeLiteral(s, i);
      ConsSlice(s, i, j, AlternativeText(s, j));
    }
  }

  /** Where the word from `i` is not followed by `/`, the alternatives scan
      copies one character. */
  lemma AlternativeLiteral(s: string, i: nat)
    requires i < |s| && (IsLetter(s[i]) && i + LetterRun(s, i) < |s| ==> s[i + LetterRun(s, i)] != '/')
    ensures AlternativeText(s, i) == [s[i]] + AlternativeText(s, i + 1)
  {
  }

  lemma WordsTail(ws: seq<string>)
    requires ws != [] && Words(ws)
    ensures Words(ws[1..])
  {
    forall k | 0 <= k < |ws| - 1 ensures ws[1..][k] == ws[k + 1] {
    }
  }

  /** `/w1/w2…/wn`: each word of `ws` after a `/`. */
  function SlashWords(ws: seq<string>): string
    decreases |ws|
  {
    if ws == [] then [] else "/" + ws[0] + SlashWords(ws[1..])
  }

  /** Words joined by `/` are the first word and a `/` before each other word. */
  lemma {:induction false} JoinIsSlashWords(ws: seq<string>)
    requires ws != []
    ensures Join(ws, "/") == ws[0] + SlashWords(ws[1..])
    decreases |ws|
  {
    if |ws| > 1 {
      JoinIsSlashWords(ws[1..]);
      assert ws[1..][1..] == ws[2..];
    }
  }

  /** `s` holds `t` from position `j` on. */
  predicate HoldsAt(s: string, j: nat, t: string) {
    j + |t| <= |s| && forall q :: 0 <= q < |t| ==> s[j + q] == t[q]
  }

  /** Holding `x + y` is holding `x` and then `y`. */
  lemma HoldsSplit(s: string, j: nat, x: string, y: string)
    requires HoldsAt(s, j, x + y)
    ensures HoldsAt(s, j, x) && HoldsAt(s, j + |x|, y)
  {
    forall q | 0 <= q < |x| ensures s[j + q] == x[q] {
      assert (x + y)[q] == x[q];
    }
    forall q | 0 <= q < |y| ensures s[j + |x| + q] == y[q] {
      assert (x + y)[|x| + q] == y[q];
    }
  }

  /** The middle part of `a + m + b` is held at `|a|`. */
  lemma HoldsInMiddle(a: string, m: string, b: string)
    ensures HoldsAt(a + m + b, |a|, m)
  {
    forall q | 0 <= q < |m| ensures (a + m + b)[|a| + q] == m[q] {
      InMiddle(a, m, b, q);
    }
  }

  /** Across a held word of letters the scan keeps going. */
  lemma {:induction false} WordsEndLetters(s: string, k: nat, w: string)
    requires (forall q :: 0 <= q < |w| ==> IsLetter(w[q])) && HoldsAt(s, k, w)
    ensures WordsEnd(s, k) == WordsEnd(s, k + |w|)
    decreases |w|
  {
    if w != [] {
      assert s[k + 0] == w[0];
      HoldsSplit(s, k, [w[0]], w[1..]);
      assert [w[0]] + w[1..] == w;
      WordsEndLetters(s, k + 1, w[1..]);
    }
  }

  /** Where `s` holds `SlashWords(ws)` at `k` and no `/` or letter follows,
      the scan from `k` ends after the last word. */
  lemma {:induction false} WordsEndWords(s: string, k: nat, ws: seq<string>)
    requires Words(ws) && HoldsAt(s, k, SlashWords(ws))
    requires var e := k + |SlashWords(ws)|; e == |s| || (s[e] != '/' && !IsLetter(s[e]))
    ensures WordsEnd(s, k) == k + |SlashWords(ws)|
    decreases |ws|
  {
    if ws != [] {
      FirstSlashedWord(s, k, ws);
      var w := ws[0];
      assert s[k + 1 + 0] == w[0];
      WordsEndLetters(s, k + 1, w);
      WordsEndWords(s, k + 1 + |w|, ws[1..]);
    }
  }

  /** Where `s` holds `SlashWords(ws)` at `j`, a `/` stands at `j`, the first
      word after it, then `SlashWords(ws[1..])`. */
  lemma FirstSlashedWord(s: string, j: nat, ws: seq<string>)
    requires ws != [] && Words(ws) && HoldsAt(s, j, SlashWords(ws))
    requires var e := j + |SlashWords(ws)|; e == |s| || !IsLetter(s[e])
    ensures var k := j + 1 + |ws[0]|;
      Words(ws[1..]) && HoldsAt(s, k, SlashWords(ws[1..])) && k + |SlashWords(ws[1..])| == j + |SlashWords(ws)|
    ensures var k := j + 1 + |ws[0]|;
      s[j] == '/' && HoldsAt(s, j + 1, ws[0]) && (k == |s| || !IsLetter(s[k]))
  {
    var w, rest := ws[0], SlashWords(ws[1..]);
    assert SlashWords(ws) == "/" + w + rest;
    HoldsSplit(s, j, "/" + w, rest);
    HoldsSplit(s, j, "/", w);
    assert s[j + 0] == "/"[0];
    WordsTail(ws);
    if rest != [] {
      assert s[j + 1 + |w| + 0] == rest[0];
    }
  }

  /** A word of letters held at `i` and followed by no letter is the letter run from `i`. */
  lemma WordRunAt(s: string, i: nat, w: string)
    requires w != [] && forall q :: 0 <= q < |w| ==> IsLetter(w[q])
    requires HoldsAt(s, i, w)
    requires i + |w| == |s| || !IsLetter(s[i + |w|])
    ensures IsLetter(s[i]) && LetterRun(s, i) == |w|
  {
    forall k | i <= k < i + |w| ensures IsLetter(s[k]) {
      assert s[i + (k - i)] == w[k - i];
    }
    LetterRunIs(s, i, |w|);
  }

  lemma SlashToBarConcat(x: string, y: string)
    ensures SlashToBar(x + y) == SlashToBar(x) + SlashToBar(y)
  {
  }

  lemma SlashToBarKeeps(x: string)
    requires '/' !in x
    ensures SlashToBar(x) == x
  {
  }

  /** Turning `/` into `|` in words joined by `/` joins them by `|`. */
  lemma {:induction false} SlashToBarJoin(ws: seq<string>)
    requires Words(ws)
    ensures SlashToBar(Join(ws, "/")) == Join(ws, "|")
    decreases |ws|
  {
    if ws != [] {
      var w := ws[0];
      assert '/' !in w by {
        forall q | 0 <= q < |w| ensures w[q] != '/' {
          assert IsLetter(w[q]);
        }
      }
      SlashToBarKeeps(w);
      if |ws| > 1 {
        var rest := Join(ws[1..], "/");
        WordsTail(ws);
        SlashToBarJoin(ws[1..]);
        SlashToBarConcat(w + "/", rest);
        SlashToBarConcat(w, "/");
        assert SlashToBar("/") == "|";
        calc {
          SlashToBar(Join(ws, "/"));
        ==
          SlashToBar(w + "/" + rest);
        ==
          SlashToBar(w) + SlashToBar("/") + SlashToBar(rest);
        ==
          w + "|" + Join(ws[1..], "|");
        }
      }
    }
  }

  /** `a/b/c` becomes `(a|b|c)`, and the text around it is kept. */
  lemma AlternativeReplaced(a: string, ws: seq<string>, b: string)
    requires |ws| >= 2 && Words(ws)
    requires '/' !in a && (a == [] || !IsLetter(a[|a| - 1]))
    requires '/' !in b && (b == [] || !IsLetter(b[0]))
    ensures AlternativeText(a + Join(ws, "/") + b, 0) == a + "(" + Join(ws, "|") + ")" + b
  {
    var s, e := a + Join(ws, "/") + b, |a| + |Join(ws, "/")|;
    AlternativeLayout(a, ws, b);
    AlternativeAt(s, |a|, e, ws);
    Regroup(a, "(", Join(ws, "|"), ")", b);
  }

  /** Where `a + Join(ws, "/") + b` holds the words, and what stands around them. */
  lemma AlternativeLayout(a: string, ws: seq<string>, b: string)
    requires '/' !in a && (a == [] || !IsLetter(a[|a| - 1]))
    requires '/' !in b && (b == [] || !IsLetter(b[0]))
    ensures HoldsAt(a + Join(ws, "/") + b, |a|, Join(ws, "/"))
    ensures NoSlash(a + Join(ws, "/") + b, 0, |a|)
    ensures NoSlash(a + Join(ws, "/") + b, |a| + |Join(ws, "/")|, |a + Join(ws, "/") + b|)
    ensures |a| == 0 || !IsLetter((a + Join(ws, "/") + b)[|a| - 1])
    ensures b == [] || !IsLetter((a + Join(ws, "/") + b)[|a| + |Join(ws, "/")|])
    ensures (a + Join(ws, "/") + b)[..|a|] == a && (a + Join(ws, "/") + b)[|a| + |Join(ws, "/")|..] == b
  {
    var text := Join(ws, "/");
    var s, e := a + text + b, |a| + |text|;
    PartsOf(a, text, b);
    if b != [] {
      InBack(a, text, b, 0);
    }
    HoldsInMiddle(a, text, b);
    AlternativeSurround(s, a, b, e);
  }

  /** Words joined by `/` held from `i` to `e`, with no `/` elsewhere and no
      letter on either side, become the words joined by `|` in parentheses. */
  lemma AlternativeAt(s: string, i: nat, e: nat, ws: seq<string>)
    requires |ws| >= 2 && Words(ws) && HoldsAt(s, i, Join(ws, "/")) && e == i + |Join(ws, "/")|
    requires NoSlash(s, 0, i) && NoSlash(s, e, |s|)
    requires (i == 0 || !IsLetter(s[i - 1])) && (e == |s| || !IsLetter(s[e]))
    ensures AlternativeText(s, 0) == s[..i] + ("(" + Join(ws, "|") + ")") + s[e..]
  {
    AlternativeAtFacts(s, i, e, ws);
    AlternativeOneMatch(s, i, |ws[0]|, e, Join(ws, "|"));
  }

  /** What the match of the words held from `i` to `e` needs. */
  lemma AlternativeAtFacts(s: string, i: nat, e: nat, ws: seq<string>)
    requires |ws| >= 2 && Words(ws) && HoldsAt(s, i, Join(ws, "/")) && e == i + |Join(ws, "/")|
    requires NoSlash(s, e, |s|) && (e == |s| || !IsLetter(s[e]))
    ensures i < |s| && IsLetter(s[i]) && LetterRun(s, i) == |ws[0]|
    ensures i + |ws[0]| + 1 < |s| && s[i + |ws[0]|] == '/' && IsLetter(s[i + |ws[0]| + 1])
    ensures AlternativesEnd(s, i + |ws[0]|) == e && AlternativeGroup(s, i, e) == "(" + Join(ws, "|") + ")"
  {
    if e < |s| {
      assert s[e] != '/';
    }
    AlternativeWordsAt(s, i, ws);
    HoldsSlice(s, i, Join(ws, "/"));
    SlashToBarJoin(ws);
  }

  /** A held text is the slice where it is held. */
  lemma HoldsSlice(s: string, j: nat, t: string)
    requires HoldsAt(s, j, t)
    ensures s[j..j + |t|] == t
  {
    forall q | 0 <= q < |t| ensures s[j..j + |t|][q] == t[q] {
      assert s[j + q] == t[q];
    }
  }

  /** Outside the match, `a + Join(ws, "/") + b` holds no `/`, and no letter
      stands just before it. */
  lemma AlternativeSurround(s: string, a: string, b: string, e: nat)
    requires |a| <= e <= |s| && s[..|a|] == a && s[e..] == b
    requires '/' !in a && (a == [] || !IsLetter(a[|a| - 1]))
    requires '/' !in b
    ensures NoSlash(s, 0, |a|) && (|a| == 0 || !IsLetter(s[|a| - 1])) && NoSlash(s, e, |s|)
  {
    forall p | 0 <= p < |a| ensures s[p] == a[p] {
      assert s[p] == s[..|a|][p];
    }
    forall p | e <= p < |s| ensures s[p] == b[p - e] {
      assert s[p] == s[e..][p - e];
    }
  }

  /** Where `s` holds `Join(ws, "/")` at `i`, followed by no `/` or letter, the
      first word runs from `i`, a `/` and a letter follow it, and the greedy
      repetition of `/word` ends after the last word. */
  lemma AlternativeWordsAt(s: string, i: nat, ws: seq<string>)
    requires |ws| >= 2 && Words(ws) && HoldsAt(s, i, Join(ws, "/"))
    requires var e := i + |Join(ws, "/")|; e == |s| || (s[e] != '/' && !IsLetter(s[e]))
    ensures i < |s| && IsLetter(s[i]) && LetterRun(s, i) == |ws[0]|
    ensures i + |ws[0]| + 1 < |s| && s[i + |ws[0]|] == '/' && IsLetter(s[i + |ws[0]| + 1])
    ensures AlternativesEnd(s, i + |ws[0]|) == i + |Join(ws, "/")|
  {
    var w, rest := ws[0], SlashWords(ws[1..]);
    JoinIsSlashWords(ws);
    var j := i + |w|;
    HoldsSplit(s, i, w, rest);
    WordsTail(ws);
    FirstSlashedWord(s, j, ws[1..]);
    WordRunAt(s, i, w);
    WordsEndWords(s, j, ws[1..]);
    assert s[j + 1 + 0] == ws[1][0];
  }

  /** A text with one alternatives match from `i` to `e`, its first word of
      length `n`: it becomes the match in parentheses with `/` turned into
      `|`, written `u`. */
  lemma AlternativeOneMatch(s: string, i: nat, n: nat, e: nat, u: string)
    requires i < |s| && IsLetter(s[i]) && LetterRun(s, i) == n
    requires i + n + 1 < |s| && s[i + n] == '/' && IsLetter(s[i + n + 1]) && AlternativesEnd(s, i + n) == e
    requires NoSlash(s, 0, i) && (i == 0 || !IsLetter(s[i - 1])) && NoSlash(s, e, |s|)
    requires AlternativeGroup(s, i, e) == "(" + u + ")"
    ensures AlternativeText(s, 0) == s[..i] + ("(" + u + ")") + s[e..]
  {
    var tail := AlternativeText(s, e);
    AlternativeCopies(s, e, |s|);
    assert tail == s[e..] by {
      assert AlternativeText(s, |s|) == [];
      assert s[e..|s|] + [] == s[e..];
    }
    AlternativeCopies(s, 0, i);
    assert s[0..i] == s[..i];
    AlternativeMatch(s, i, n, e);
    Chain(AlternativeText(s, 0), AlternativeText(s, i), tail, s[..i], "(" + u + ")", s[e..]);
  }

  /** Where a word followed by `/word` starts, the alternatives scan emits the
      whole match in parentheses with `/` turned into `|`. */
  lemma AlternativeMatch(s: string, i: nat, n: nat, e: nat)
    requires i < |s| && IsLetter(s[i]) && LetterRun(s, i) == n
    requires i + n + 1 < |s| && s[i + n] == '/' && IsLetter(s[i + n + 1]) && AlternativesEnd(s, i + n) == e
    ensures AlternativeText(s, i) == AlternativeGroup(s, i, e) + AlternativeText(s, e)
  {
    var j := i + LetterRun(s, i);
    assert j == i + n && AlternativesEnd(s, j) == e;
    assert IsLetter(s[i]) && j + 1 < |s| && s[j] == '/' && IsLetter(s[j + 1]);
  }

  /** Neither `p` nor the position after it holds a `{`. */
  predicate NoBraceNear(s: string, p: nat)
    requires p < |s|
  {
    s[p] != '{' && (p + 1 < |s| ==> s[p + 1] != '{')
  }

  /** No `{` opens anywhere from `i` to `j`. */
  predicate NoBraceFrom(s: string, i: nat, j: nat)
    requires i <= j <= |s|
  {
    forall p :: i <= p < j ==> NoBraceNear(s, p)
  }

  /** The Cucumber-expression scan copies a stretch in which no `{` opens. */
  lemma {:induction false} CucumberCopies(s: string, i: nat, j: nat)
    requires i <= j <= |s| && NoBraceFrom(s, i, j)
    ensures CucumberExpressions(s, i) == s[i..j] + CucumberExpressions(s, j)
    decreases j - i
  {
    if i < j {
      CucumberCopies(s, i + 1, j);
      CucumberLiteral(s, i);
      ConsSlice(s, i, j, CucumberExpressions(s, j));
    }
  }

  /** Where no `{` opens, the Cucumber-expression scan copies one character. */
  lemma CucumberLiteral(s: string, i: nat)
    requires i < |s| && NoBraceNear(s, i)
    ensures CucumberExpressions(s, i) == [s[i]] + CucumberExpressions(s, i + 1)
  {
  }

  /** The scan copies the whole rest of a text in which no `{` opens. */
  lemma CucumberTail(s: string, k: nat)
    requires k <= |s| && NoBraceFrom(s, k, |s|)
    ensures CucumberExpressions(s, k) == s[k..]
  {
    CucumberCopies(s, k, |s|);
    assert CucumberExpressions(s, |s|) == [];
    assert s[k..|s|] + [] == s[k..];
  }

  /** `[^\\]{name}` with the `}` at `e`: the character is kept and the rest
      becomes `.*`. */
  lemma CucumberMatch(s: string, p: nat, e: nat)
    requires p + 1 < |s| && s[p] != '\\' && s[p + 1] == '{' && NotCountAt(s, p + 2)
    requires LazyClose(s, p + 2, '}') == Some(e)
    ensures CucumberExpressions(s, p) == [s[p]] + AnyText + CucumberExpressions(s, e + 1)
  {
    assert p != |s| && LazyClose(s, p + 2, '}').Some?;
  }

  /** `^{name}` with the `}` at `e`, where the first alternative does not
      match: the name becomes `.*`. */
  lemma CucumberMatchFirst(s: string, e: nat)
    requires 1 < |s| && s[0] == '{' && s[1] != '{' && NotCountAt(s, 1)
    requires LazyClose(s, 1, '}') == Some(e)
    ensures CucumberExpressions(s, 0) == AnyText + CucumberExpressions(s, e + 1)
  {
    assert 0 != |s| && LazyClose(s, 1, '}').Some?;
  }

  /** The only `{` of `s` opens a bare `{name}` at `m`, closed at `e`, with
      no backslash before it. */
  predicate CucumberShape(s: string, m: nat, e: nat) {
    m + 1 < |s| && s[m] == '{' && s[m + 1] != '{' && NotCountAt(s, m + 1) &&
    LazyClose(s, m + 1, '}') == Some(e) &&
    (m == 0 || (s[m - 1] != '\\' && NoBraceFrom(s, 0, m - 1))) &&
    NoBraceFrom(s, e + 1, |s|)
  }

  /** A text with one bare `{name}` from `m` to `e`, and no other `{`: the
      name becomes `.*`. */
  lemma CucumberAt(s: string, m: nat, e: nat)
    requires CucumberShape(s, m, e)
    ensures CucumberExpressions(s, 0) == s[..m] + AnyText + s[e + 1..]
  {
    if m == 0 {
      CucumberAtFirst(s, e);
      assert s[..0] + AnyText == AnyText;
    } else {
      CucumberAtLater(s, m, e);
    }
  }

  lemma CucumberAtFirst(s: string, e: nat)
    requires 1 < |s| && s[0] == '{' && s[1] != '{' && NotCountAt(s, 1)
    requires LazyClose(s, 1, '}') == Some(e) && NoBraceFrom(s, e + 1, |s|)
    ensures CucumberExpressions(s, 0) == AnyText + s[e + 1..]
  {
    CucumberTail(s, e + 1);
    CucumberMatchFirst(s, e);
  }

  lemma CucumberAtLater(s: string, m: nat, e: nat)
    requires 0 < m && m + 1 < |s| && s[m] == '{' && NotCountAt(s, m + 1)
    requires LazyClose(s, m + 1, '}') == Some(e)
    requires s[m - 1] != '\\' && NoBraceFrom(s, 0, m - 1) && NoBraceFrom(s, e + 1, |s|)
    ensures CucumberExpressions(s, 0) == s[..m] + AnyText + s[e + 1..]
  {
    var p := m - 1;
    CucumberMatch(s, p, e);
    PrefixSnoc(s, m);
    CucumberCopies(s, 0, p);
    CucumberTail(s, e + 1);
    ChainKept(CucumberExpressions(s, 0), CucumberExpressions(s, p), CucumberExpressions(s, e + 1),
      s[0..p], s[p], AnyText, s[e + 1..], s[..m]);
  }

  /** Where the `{name}` of `a + "{" + w + "}" + b` sits, and that no other
      `{` opens. */
  lemma CucumberLayout(s: string, a: string, w: string, b: string, e: nat)
    requires s == a + "{" + w + "}" + b && e == |a| + 1 + |w|
    requires '{' !in a && '{' !in b && '{' !in w
    requires a == [] || a[|a| - 1] != '\\'
    requires w == [] || (!IsDigit(w[0]) && w[0] != ',')
    requires forall q :: 0 <= q < |w| ==> w[q] != '}' && !IsLineTerminator(w[q])
    ensures CucumberShape(s, |a|, e) && e < |s| && s[..|a|] == a && s[e + 1..] == b
  {
    assert s[|a|] == '{' && s[e] == '}';
    forall k | |a| + 1 <= k < e ensures s[k] == w[k - |a| - 1] {
    }
    LazyCloseAt(s, |a| + 1, '}', e);
    assert s[|a| + 1] == if w == [] then '}' else w[0];
    forall p | e + 1 <= p < |s| ensures NoBraceNear(s, p) {
      assert s[p] == b[p - e - 1];
      if p + 1 < |s| {
        assert s[p + 1] == b[p - e];
      }
    }
    assert s[e + 1..] == b;
    if a != [] {
      forall q | 0 <= q < |a| - 1 ensures NoBraceNear(s, q) {
        assert s[q] == a[q] && s[q + 1] == a[q + 1];
      }
      assert s[|a| - 1] == a[|a| - 1];
    }
  }

  /** A bare `{name}` becomes `.*`, keeping the character before it, when that
      character is not a backslash or the name opens the text. */
  lemma CucumberReplaced(a: string, w: string, b: string)
    requires '{' !in a && '{' !in b && '{' !in w
    requires a == [] || a[|a| - 1] != '\\'
    requires w == [] || (!IsDigit(w[0]) && w[0] != ',')
    requires forall q :: 0 <= q < |w| ==> w[q] != '}' && !IsLineTerminator(w[q])
    ensures CucumberExpressions(a + "{" + w + "}" + b, 0) == a + AnyText + b
  {
    var s, e := a + "{" + w + "}" + b, |a| + 1 + |w|;
    CucumberLayout(s, a, w, b, e);
    CucumberAt(s, |a|, e);
  }

  /** Under `processCommonPatterns`, `(word)` becomes `(word)?`. */
  lemma CommonPatternsOfOptional(a: string, w: string, b: string)
    requires '(' !in a && '(' !in b && '/' !in a && '/' !in b && '{' !in a && '{' !in b
    requires w != [] && forall q :: 0 <= q < |w| ==> IsLowerLetter(w[q])
    ensures ProcessCommonPatterns(a + "(" + w + ")" + b) == a + "(" + w + ")?" + b
  {
    OptionalReplaced(a, w, b);
    var r := a + "(" + w + ")?" + b;
    assert '/' !in w && '{' !in w by {
      forall q | 0 <= q < |w| ensures w[q] != '/' && w[q] != '{' {
        assert IsLowerLetter(w[q]);
      }
    }
    AlternativeAbsent(r, 0);
    assert r[0..] == r;
    CucumberAbsent(r, 0);
  }

  /** Under `processCommonPatterns`, `a/b/c` becomes `(a|b|c)`. */
  lemma CommonPatternsOfAlternatives(a: string, ws: seq<string>, b: string)
    requires |ws| >= 2 && Words(ws)
    requires '(' !in a && '(' !in b && '{' !in a && '{' !in b
    requires '/' !in a && (a == [] || !IsLetter(a[|a| - 1]))
    requires '/' !in b && (b == [] || !IsLetter(b[0]))
    ensures ProcessCommonPatterns(a + Join(ws, "/") + b) == a + "(" + Join(ws, "|") + ")" + b
  {
    forall k | 0 <= k < |ws| ensures '(' !in ws[k] && '{' !in ws[k] {
      forall q | 0 <= q < |ws[k]| ensures ws[k][q] != '(' && ws[k][q] != '{' {
        assert IsLetter(ws[k][q]);
      }
    }
    JoinAvoidsChar(ws, "/", '(');
    JoinAvoidsChar(ws, "|", '{');
    var s := a + Join(ws, "/") + b;
    OptionalAbsent(s, 0);
    assert s[0..] == s;
    AlternativeReplaced(a, ws, b);
    CucumberAbsent(a + "(" + Join(ws, "|") + ")" + b, 0);
  }

  /** Under `processCommonPatterns`, a bare `{name}` becomes `.*`. */
  lemma CommonPatternsOfName(a: string, w: string, b: string)
    requires '(' !in a + w + b && '/' !in a + w + b && '{' !in a + w + b
    requires a == [] || a[|a| - 1] != '\\'
    requires w == [] || (!IsDigit(w[0]) && w[0] != ',')
    requires forall q :: 0 <= q < |w| ==> w[q] != '}' && !IsLineTerminator(w[q])
    ensures ProcessCommonPatterns(a + "{" + w + "}" + b) == a + AnyText + b
  {
    var s := a + "{" + w + "}" + b;
    OptionalAbsent(s, 0);
    assert s[0..] == s;
    AlternativeAbsent(s, 0);
    CucumberReplaced(a, w, b);
  }

  /** A step with one parameter type, and no other braces, parentheses or
      slashes, has that type's fragment in its pattern text. */
  lemma PatternOfParameterStep(a: string, k: nat, b: string)
    requires k < |ParameterTypes|
    requires '{' !in a + b && '(' !in a + b && '/' !in a + b
    requires '(' !in ParameterTypes[k].1 && '/' !in ParameterTypes[k].1
    ensures PatternText(a + ParameterTypes[k].0 + b) == a + ParameterTypes[k].1 + b
  {
    ParameterTypeReplaced(a, k, b);
    ParameterTypesBraced();
    CommonPatternsAbsent(a + ParameterTypes[k].1 + b);
  }

  /** `I have {int} items` has the pattern text `I have -?\d+ items`. */
  lemma PatternOfIntStep(step: string)
    requires step == "I have {int} items"
    ensures PatternText(step) == "I have -?\\d+ items"
  {
    var a, b := step[..7], step[12..];
    IntStepParts(step, a, b);
    PatternOfParameterStep(a, 1, b);
  }

  /** `I have {int} items` around its parameter type, before and after. */
  lemma IntStepParts(step: string, a: string, b: string)
    requires step == "I have {int} items" && a == step[..7] && b == step[12..]
    ensures step == a + ParameterTypes[1].0 + b
    ensures a + ParameterTypes[1].1 + b == "I have -?\\d+ items"
  {
    assert a == "I have " && b == " items";
    assert ParameterTypes[1] == ("{int}", "-?\\d+");
  }
}
