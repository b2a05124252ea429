/** Splitting a step pattern into the space-separated parts that completion
    matches one by one (`getPartialRegParts`, gserver/src/steps.handler.ts:419-461),
    and the "prefix" pattern built from those parts (`getPartialRegText`,
    gserver/src/steps.handler.ts:463-469). Spaces inside a parenthesised group
    do not separate parts. */
module PartialPattern {
  import opened Wrappers
  import opened Strings
  import opened Types
  import opened StepPatterns

  /** The scanner state: `bracesMode`, `openingBracesNum`, `closingBracesNum`. */
  datatype Mode = Mode(braces: bool, opening: int, closing: int)

  const Fresh := Mode(false, 0, 0)

  /** The state after reading a character that does not end a part. */
  function Advance(m: Mode, c: char): Mode {
    if m.braces then
      var closing := if c == ')' then m.closing + 1 else m.closing;
      var braces := !(c == ')' && m.opening == closing);
      var opening := if c == '(' then m.opening + 1 else m.opening;
      Mode(braces, opening, closing)
    else if c == '(' then Mode(true, 1, 0)
    else m
  }

  /** A space outside braces ends the current part. */
  predicate Separates(m: Mode, c: char) {
    !m.braces && c == ' '
  }

  /** The parts still to be produced from the unread text `t`, given the part
      `cur` in progress and the state `m`. */
  function Tok(t: string, cur: string, m: Mode): (r: seq<string>)
    ensures |r| >= 1
    decreases |t|
  {
    if t == [] then [cur]
    else if Separates(m, t[0]) then [cur] + Tok(t[1..], "", m)
    else Tok(t[1..], cur + [t[0]], Advance(m, t[0]))
  }

  /** The parts of an already transformed pattern text. */
  function Parts(text: string): seq<string> {
    Tok(text, "", Fresh)
  }

  /** The loop of `getPartialRegParts` over a transformed text. */
  method SplitParts(text: string) returns (res: seq<string>)
    ensures res == Parts(text)
  {
    var curr := "";
    var bracesMode := false;
    var openingBracesNum := 0;
    var closingBracesNum := 0;
    res := [];
    var i := 0;
    while i <= |text|
      invariant 0 <= i <= |text| + 1
      invariant i <= |text| ==>
        res + Tok(text[i..], curr, Mode(bracesMode, openingBracesNum, closingBracesNum)) == Parts(text)
      invariant i == |text| + 1 ==> res == Parts(text)
      decreases |text| + 1 - i
    {
      if i == |text| {
        res := res + [curr];
      } else {
        var c := text[i];
        assert text[i..][1..] == text[i + 1..];
        if bracesMode {
          if c == ')' {
            closingBracesNum := closingBracesNum + 1;
            if openingBracesNum == closingBracesNum {
              bracesMode := false;
            }
          }
          if c == '(' {
            openingBracesNum := openingBracesNum + 1;
          }
          curr := curr + [c];
        } else {
          if c == ' ' {
            res := res + [curr];
            curr := "";
          } else if c == '(' {
            curr := curr + "(";
            bracesMode := true;
            openingBracesNum := 1;
            closingBracesNum := 0;
          } else {
            curr := curr + [c];
          }
        }
      }
      i := i + 1;
    }
  }

  /** `getPartialRegParts`: the parts of the step's pattern text. */
  method PartialRegParts(settings: Settings, host: Host, step: string) returns (res: seq<string>)
    ensures res == Parts(RegTextFor(settings, host, step))
  {
    var text := RegTextFor(settings, host, step);
    res := SplitParts(text);
  }

  /** `getPartialRegText`: every part may be cut short by the end of the input. */
  function PartialRegText(settings: Settings, host: Host, step: string): string {
    PrefixPattern(Parts(RegTextFor(settings, host, step)))
  }

  /** The parts wrapped as `(part|$)`, joined by `( |$)`, anchored with `^`. */
  function PrefixPattern(parts: seq<string>): (r: string)
    requires |parts| >= 1
    ensures StartsWith(r, "^(") && EndsWith(r, "|$)")
  {
    var wrapped := WrapParts(parts);
    var body := Join(wrapped, "( |$)");
    JoinEnds(wrapped, "( |$)", "(", "|$)");
    if StartsWith(body, "^") then body else "^" + body
  }

  /** `.map((el) => `(${el}|$)`)`. */
  function WrapParts(parts: seq<string>): (r: seq<string>)
    ensures |r| == |parts|
    ensures forall k :: 0 <= k < |r| ==> r[k] == "(" + parts[k] + "|$)"
  {
    if parts == [] then [] else ["(" + parts[0] + "|$)"] + WrapParts(parts[1..])
  }

  lemma {:induction false} JoinEnds(parts: seq<string>, sep: string, open: string, close: string)
    requires |parts| >= 1
    requires forall k :: 0 <= k < |parts| ==> StartsWith(parts[k], open) && EndsWith(parts[k], close)
    ensures StartsWith(Join(parts, sep), open) && EndsWith(Join(parts, sep), close)
  {
    if |parts| > 1 {
      JoinEnds(parts[1..], sep, open, close);
      var rest := Join(parts[1..], sep);
      assert Join(parts, sep) == parts[0] + (sep + rest);
      assert (parts[0] + (sep + rest))[..|open|] == parts[0][..|open|];
      assert (parts[0] + sep + rest)[|parts[0] + sep + rest| - |close|..] == rest[|rest| - |close|..];
    }
  }

  // ------------------------------------------------------------------------
  // Properties of the split

  /** The state reached by reading `s` from `m` with no separator in between. */
  function Run(m: Mode, s: string): Mode
    decreases |s|
  {
    if s == [] then m else Advance(Run(m, s[..|s| - 1]), s[|s| - 1])
  }

  /** `s` ends inside a parenthesised group when read from the start of a part. */
  predicate InBraces(s: string) { Run(Fresh, s).braces }

  /** Outside braces the counters do not matter. */
  predicate Sim(m1: Mode, m2: Mode) {
    m1.braces == m2.braces && (m1.braces ==> m1 == m2)
  }

  predicate SpacesInBraces(p: string) {
    forall k :: 0 <= k < |p| && p[k] == ' ' ==> InBraces(p[..k])
  }

  /** Joining the parts with single spaces gives back the text. */
  lemma {:induction false} TokJoin(t: string, cur: string, m: Mode)
    ensures Join(Tok(t, cur, m), " ") == cur + t
    decreases |t|
  {
    if t != [] {
      if Separates(m, t[0]) {
        TokJoin(t[1..], "", m);
        var rest := Tok(t[1..], "", m);
        JoinCons(cur, rest, " ");
        assert cur + " " + ("" + t[1..]) == cur + t;
      } else {
        TokJoin(t[1..], cur + [t[0]], Advance(m, t[0]));
        assert cur + [t[0]] + t[1..] == cur + t;
      }
    }
  }

  lemma PartsJoin(text: string)
    ensures Join(Parts(text), " ") == text
  {
    TokJoin(text, "", Fresh);
  }

  /** Every space kept inside a part lies within a group, and every part but
      the last was closed outside any group: together with `PartsJoin` this
      says the parts are exactly the text cut at its top-level spaces. */
  lemma {:induction false} TokShape(t: string, cur: string, m: Mode)
    requires Sim(m, Run(Fresh, cur)) && SpacesInBraces(cur)
    ensures forall k :: 0 <= k < |Tok(t, cur, m)| ==> SpacesInBraces(Tok(t, cur, m)[k])
    ensures forall k :: 0 <= k < |Tok(t, cur, m)| - 1 ==> !InBraces(Tok(t, cur, m)[k])
    decreases |t|
  {
    if t != [] {
      if Separates(m, t[0]) {
        TokShape(t[1..], "", m);
        assert Tok(t, cur, m) == [cur] + Tok(t[1..], "", m);
      } else {
        var c := t[0];
        var next := cur + [c];
        assert next[..|next| - 1] == cur;
        assert Run(Fresh, next) == Advance(Run(Fresh, cur), c);
        forall k | 0 <= k < |next| && next[k] == ' ' ensures InBraces(next[..k]) {
          if k < |cur| {
            assert next[..k] == cur[..k];
          } else {
            assert next[..k] == cur;
          }
        }
        TokShape(t[1..], next, Advance(m, c));
      }
    }
  }

  lemma PartsShape(text: string)
    ensures forall k :: 0 <= k < |Parts(text)| ==> SpacesInBraces(Parts(text)[k])
    ensures forall k :: 0 <= k < |Parts(text)| - 1 ==> !InBraces(Parts(text)[k])
  {
    TokShape(text, "", Fresh);
  }
}
