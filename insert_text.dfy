/** The text a completion item inserts (`getCompletionInsertText`,
    gserver/src/steps.handler.ts:512-565): the step's parts from the first one
    the typed text no longer matches, with user-input fragments turned into
    numbered snippet placeholders, or `"[^"]+"` shortened to `""`. */
module InsertText {
  import opened Wrappers
  import opened Strings
  import opened Types
  import opened StepPatterns
  import opened PartialPattern

  // ------------------------------------------------------------------------
  // Cutting off the part already typed

  /** `new RegExp('^' + escapeRegExp(currArray.join(' ')))` for the first `i + 1` parts. */
  function PrefixProbe(host: Host, parts: seq<string>, i: nat): string
    requires i < |parts|
  {
    "^" + host.escapeRegExp(Join(parts[..i + 1], " "))
  }

  /** The probe compiles and the typed text does not match it. */
  predicate Rejects(host: Host, parts: seq<string>, stepPart: string, i: nat)
    requires i < |parts|
  {
    var p := PrefixProbe(host, parts, i);
    host.compiles(p) && !host.matches(p, stepPart)
  }

  /** The first index at or after `from` whose probe rejects the typed text. */
  function FirstRejected(host: Host, parts: seq<string>, stepPart: string, from: nat): (r: Option<nat>)
    ensures r.Some? ==> from <= r.value < |parts| && Rejects(host, parts, stepPart, r.value)
    ensures r.Some? ==> forall k :: from <= k < r.value ==> !Rejects(host, parts, stepPart, k)
    ensures r.None? ==> forall k :: from <= k < |parts| ==> !Rejects(host, parts, stepPart, k)
    decreases |parts| - from
  {
    if from >= |parts| then None
    else if Rejects(host, parts, stepPart, from) then Some(from)
    else FirstRejected(host, parts, stepPart, from + 1)
  }

  /** The step itself when every probe accepts, else the parts from the first rejected one. */
  function InsertTail(host: Host, step: string, parts: seq<string>, stepPart: string): string {
    match FirstRejected(host, parts, stepPart, 0)
    case None => step
    case Some(i) => Join(parts[i..], " ")
  }

  // ------------------------------------------------------------------------
  // Snippet placeholders

  /** `(?:\\.|\.|\[[^\]]+\])` at `k`: the end of the matched item. */
  function SnippetItem(s: string, k: nat): (r: Option<nat>)
    ensures r.Some? ==> k < r.value <= |s|
  {
    if k >= |s| then None
    else if s[k] == '\\' then
      (if k + 1 < |s| && !IsLineTerminator(s[k + 1]) then Some(k + 2) else None)
    else if s[k] == '.' then Some(k + 1)
    else if s[k] == '[' then
      match IndexOf(s, "]", k + 1)
      case Some(j) => if j >= k + 2 then Some(j + 1) else None
      case None => None
    else None
  }

  /** `(?:\*|\+|\{[^}]+\})` at `q`: the end of the matched quantifier. */
  function SnippetQuantifier(s: string, q: nat): (r: Option<nat>)
    ensures r.Some? ==> q < r.value <= |s|
  {
    if q >= |s| then None
    else if s[q] == '*' || s[q] == '+' then Some(q + 1)
    else if s[q] == '{' then
      match IndexOf(s, "}", q + 1)
      case Some(j) => if j >= q + 2 then Some(j + 1) else None
      case None => None
    else None
  }

  /** Item, quantifier and an optional `)`, from `k`. */
  function SnippetCore(s: string, k: nat): (r: Option<nat>)
    ensures r.Some? ==> k < r.value <= |s|
  {
    match SnippetItem(s, k)
    case None => None
    case Some(q) =>
      match SnippetQuantifier(s, q)
      case None => None
      case Some(e) => Some(if e < |s| && s[e] == ')' then e + 1 else e)
  }

  /** The end of a match of the snippet expression starting at `i`, if any. The
      leading `(?:\()?` is greedy; without it the core would have to start
      with `(`, which no item does. */
  function SnippetAt(s: string, i: nat): (r: Option<nat>)
    ensures r.Some? ==> i < r.value <= |s|
  {
    if i < |s| && s[i] == '(' then SnippetCore(s, i + 1) else SnippetCore(s, i)
  }

  /** The spans `res.match(/.../g)` returns, scanning from `i`. */
  function SnippetSpans(s: string, i: nat): seq<(nat, nat)>
    decreases |s| - i
  {
    if i >= |s| then []
    else match SnippetAt(s, i)
      case Some(e) => [(i, e)] + SnippetSpans(s, e)
      case None => SnippetSpans(s, i + 1)
  }

  function SpanTexts(s: string, spans: seq<(nat, nat)>): (r: seq<string>)
    requires forall k :: 0 <= k < |spans| ==> spans[k].0 <= spans[k].1 <= |s|
    ensures |r| == |spans|
    ensures forall k :: 0 <= k < |r| ==> r[k] == s[spans[k].0..spans[k].1]
  {
    if spans == [] then [] else [s[spans[0].0..spans[0].1]] + SpanTexts(s, spans[1..])
  }

  /** The matched texts, in order. */
  function SnippetTexts(s: string): seq<string> {
    SpansAreGlobalMatches(s, 0);
    SpanTexts(s, SnippetSpans(s, 0))
  }

  /** `'${' + num + ':}'`. */
  function Placeholder(n: nat): string {
    "${" + NatToString(n) + ":}"
  }

  /** `res = res.replace(match[i], () => '${' + (i + 1) + ':}')` for the
      matches from number `n` on: each replaces the first occurrence left. */
  function Numbered(res: string, ms: seq<string>, n: nat): string
    decreases |ms|
  {
    if ms == [] then res else Numbered(ReplaceFirst(res, ms[0], Placeholder(n)), ms[1..], n + 1)
  }

  /** `res.replace(/"\[\^"\]\+"/g, '""')`. */
  const QuotedAny := "\"[^\"]+\""

  /** The decoration after the cut: placeholders or shortened quoted
      parameters, then in pure-text mode the same clean-up as `TextForStep`
      (backslashes, a leading `^`, a trailing `$`). */
  function Decorated(settings: Settings, t: string): string {
    var r := if settings.smartSnippets then Numbered(t, SnippetTexts(t), 1)
             else ReplaceAll(t, QuotedAny, "\"\"");
    if settings.pureTextSteps then TextForStep(r) else r
  }

  /** What `getCompletionInsertText(step, stepPart)` returns. */
  function InsertTextFor(settings: Settings, host: Host, step: string, stepPart: string): string {
    Decorated(settings, InsertTail(host, step, Parts(RegTextFor(settings, host, step)), stepPart))
  }

  /** `getCompletionInsertText`. */
  method CompletionInsertText(settings: Settings, host: Host, step: string, stepPart: string)
    returns (res: string)
    ensures res == InsertTextFor(settings, host, step, stepPart)
  {
    var parts := PartialRegParts(settings, host, step);
    res := CutAtRejected(host, step, parts, stepPart);
    res := Decorate(settings, res);
  }

  /** The loop over the parts: `currArray` gains one part per round, and the
      first probe that rejects the typed text cuts the result. */
  method CutAtRejected(host: Host, step: string, parts: seq<string>, stepPart: string)
    returns (res: string)
    ensures res == InsertTail(host, step, parts, stepPart)
  {
    res := step;
    var strArray := parts;
    var currArray: seq<string> := [];
    var length := |strArray|;
    var i := 0;
    while i < length
      invariant 0 <= i <= length == |parts|
      invariant currArray == parts[..i] && strArray == parts[i..]
      invariant res == step
      invariant FirstRejected(host, parts, stepPart, 0) == FirstRejected(host, parts, stepPart, i)
    {
      currArray := currArray + [strArray[0]];
      strArray := strArray[1..];
      assert currArray == parts[..i + 1];
      var probe := "^" + host.escapeRegExp(Join(currArray, " "));
      if host.compiles(probe) && !host.matches(probe, stepPart) {
        assert currArray[|currArray| - 1..] + strArray == parts[i..];
        res := Join(currArray[|currArray| - 1..] + strArray, " ");
        return;
      }
      i := i + 1;
    }
  }

  /** The snippet loop (or the quoted-parameter shortening), then the
      pure-text clean-up. */
  method Decorate(settings: Settings, t: string) returns (res: string)
    ensures res == Decorated(settings, t)
  {
    res := t;
    if settings.smartSnippets {
      var matches := SnippetTexts(res);
      var k := 0;
      while k < |matches|
        invariant 0 <= k <= |matches|
        invariant Numbered(res, matches[k..], k + 1) == Numbered(t, matches, 1)
      {
        assert matches[k..][1..] == matches[k + 1..];
        res := ReplaceFirst(res, matches[k], Placeholder(k + 1));
        k := k + 1;
      }
    } else {
      res := ReplaceAll(res, QuotedAny, "\"\"");
    }
    if settings.pureTextSteps {
      res := TextForStep(res);
    }
  }

  // ------------------------------------------------------------------------
  // Properties

  /** `SnippetSpans` are the matches of a global search: in order, disjoint,
      and each a match where it starts. */
  predicate MatchSpans(s: string, i: nat, r: seq<(nat, nat)>) {
    (forall k :: 0 <= k < |r| ==> i <= r[k].0 && SnippetAt(s, r[k].0) == Some(r[k].1)) &&
    (forall k :: 0 <= k < |r| ==> r[k].0 <= r[k].1 <= |s|) &&
    (forall a, b :: 0 <= a < b < |r| ==> r[a].1 <= r[b].0)
  }

  lemma {:induction false} SpansAreGlobalMatches(s: string, i: nat)
    ensures MatchSpans(s, i, SnippetSpans(s, i))
    decreases |s| - i
  {
    if i < |s| {
      var m := SnippetAt(s, i);
      if m.Some? {
        var e := m.value;
        SpansAreGlobalMatches(s, e);
        assert SnippetSpans(s, i) == [(i, e)] + SnippetSpans(s, e);
        MatchSpansCons(s, i, e, SnippetSpans(s, e));
      } else {
        SpansAreGlobalMatches(s, i + 1);
        assert SnippetSpans(s, i) == SnippetSpans(s, i + 1);
      }
    }
  }

  /** A match at `i` followed by the matches from its end. */
  lemma MatchSpansCons(s: string, i: nat, e: nat, tail: seq<(nat, nat)>)
    requires SnippetAt(s, i) == Some(e) && MatchSpans(s, e, tail)
    ensures MatchSpans(s, i, [(i, e)] + tail)
  {
    var r := [(i, e)] + tail;
    assert forall k :: 1 <= k < |r| ==> r[k] == tail[k - 1];
    forall a, b | 0 <= a < b < |r| ensures r[a].1 <= r[b].0 {
      assert r[b] == tail[b - 1];
      if a > 0 { assert r[a] == tail[a - 1]; } else { assert r[a] == (i, e); }
    }
  }

  predicate Covers(r: seq<(nat, nat)>, p: nat) {
    exists k :: 0 <= k < |r| && r[k].0 <= p < r[k].1
  }

  /** No match is skipped: every position from which the snippet expression
      matches lies inside one of the spans. */
  lemma {:induction false} SpansCoverMatches(s: string, i: nat)
    ensures forall p :: i <= p < |s| && SnippetAt(s, p).Some? ==> Covers(SnippetSpans(s, i), p)
    decreases |s| - i
  {
    if i < |s| {
      match SnippetAt(s, i)
      case Some(e) =>
        SpansCoverMatches(s, e);
        var tail := SnippetSpans(s, e);
        var r := [(i, e)] + tail;
        assert SnippetSpans(s, i) == r;
        forall p | i <= p < |s| && SnippetAt(s, p).Some? ensures Covers(r, p) {
          if p < e {
            assert r[0].0 <= p < r[0].1;
          } else {
            var k :| 0 <= k < |tail| && tail[k].0 <= p < tail[k].1;
            assert r[k + 1] == tail[k];
          }
        }
      case None =>
        SpansCoverMatches(s, i + 1);
        assert SnippetSpans(s, i) == SnippetSpans(s, i + 1);
    }
  }

  /** The text already typed (the accepted parts) followed by a space and the
      inserted tail rebuilds the whole pattern text, and every part before the
      cut was accepted. */
  lemma TailCompletesPattern(host: Host, step: string, text: string, stepPart: string, i: nat)
    requires FirstRejected(host, Parts(text), stepPart, 0) == Some(i)
    ensures var parts := Parts(text);
      var tail := InsertTail(host, step, parts, stepPart);
      (i == 0 ==> tail == text) &&
      (i > 0 ==> Join(parts[..i], " ") + " " + tail == text) &&
      (forall k :: 0 <= k < i ==> !Rejects(host, parts, stepPart, k))
  {
    var parts := Parts(text);
    PartsJoin(text);
    if i > 0 {
      JoinAppend(parts[..i], parts[i..], " ");
      assert parts[..i] + parts[i..] == parts;
    } else {
      assert parts[0..] == parts;
    }
  }

  /** When every probe accepts the typed text, the whole step is inserted. */
  lemma AcceptedStepInsertedWhole(host: Host, step: string, parts: seq<string>, stepPart: string)
    requires forall k :: 0 <= k < |parts| ==> !Rejects(host, parts, stepPart, k)
    ensures InsertTail(host, step, parts, stepPart) == step
  {
  }

  /** In pure-text mode the inserted text carries no escapes. */
  lemma PureInsertHasNoBackslash(settings: Settings, t: string)
    requires settings.pureTextSteps
    ensures '\\' !in Decorated(settings, t)
  {
  }

  /** Without snippets, text with no `"[^"]+"` passes through unchanged. */
  lemma PlainInsertUnchanged(settings: Settings, t: string)
    requires !settings.smartSnippets && !settings.pureTextSteps && IndexOf(t, QuotedAny, 0).None?
    ensures Decorated(settings, t) == t
  {
  }
}
