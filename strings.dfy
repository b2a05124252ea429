/** JavaScript string primitives the extension relies on, written out exactly:
    `split`/`join` with a literal separator, `replace` with a literal pattern,
    `trim`, `indexOf`, `startsWith`/`endsWith`, splitting on `/\r?\n/`, and the
    character classes `\s`, `\d` and the line terminators that `.` refuses. */
module Strings {
  import opened Wrappers

  /** The characters a JavaScript `.` does not match. */
  predicate IsLineTerminator(c: char) {
    c == '\n' || c == '\r' || c == '\U{2028}' || c == '\U{2029}'
  }

  /** JavaScript `\s`: WhiteSpace and LineTerminator (also what `trim()` strips). */
  predicate IsSpace(c: char) {
    c == '\t' || c == '\U{000B}' || c == '\U{000C}' || c == ' ' || c == '\U{00A0}' ||
    c == '\U{1680}' || ('\U{2000}' <= c <= '\U{200A}') || c == '\U{202F}' ||
    c == '\U{205F}' || c == '\U{3000}' || c == '\U{FEFF}' || IsLineTerminator(c)
  }

  /** JavaScript `\d`. */
  predicate IsDigit(c: char) { '0' <= c <= '9' }

  /** `[a-zA-Z]`. */
  predicate IsLetter(c: char) { 'a' <= c <= 'z' || 'A' <= c <= 'Z' }

  predicate AllSpace(s: string) { forall i :: 0 <= i < |s| ==> IsSpace(s[i]) }

  predicate AllDigits(s: string) { forall i :: 0 <= i < |s| ==> IsDigit(s[i]) }

  predicate StartsWith(s: string, p: string) { |p| <= |s| && s[..|p|] == p }

  predicate EndsWith(s: string, p: string) { |p| <= |s| && s[|s| - |p|..] == p }

  /** `s.replace` of a leading `\s*` with nothing, i.e. `trimStart()`. */
  function TrimStart(s: string): (r: string)
    ensures |r| <= |s| && r == s[|s| - |r|..]
    ensures AllSpace(s[..|s| - |r|])
    ensures r != [] ==> !IsSpace(r[0])
  {
    if s != [] && IsSpace(s[0]) then TrimStart(s[1..]) else s
  }

  /** `s.replace(/\s*$/, '')`, i.e. `trimEnd()`. */
  function TrimEnd(s: string): (r: string)
    ensures |r| <= |s| && r == s[..|r|]
    ensures AllSpace(s[|r|..])
    ensures r != [] ==> !IsSpace(r[|r| - 1])
  {
    if s != [] && IsSpace(s[|s| - 1]) then TrimEnd(s[..|s| - 1]) else s
  }

  /** `s.trim()`. */
  function Trim(s: string): (r: string)
    ensures r != [] ==> !IsSpace(r[0]) && !IsSpace(r[|r| - 1])
  {
    TrimEnd(TrimStart(s))
  }

  /** `s.substring(0, n)` for a non-negative `n`. */
  function Prefix(s: string, n: nat): (r: string)
    ensures |r| == if n <= |s| then n else |s|
    ensures StartsWith(s, r)
  {
    if n <= |s| then s[..n] else s
  }

  predicate OccursAt(s: string, t: string, k: nat) {
    k + |t| <= |s| && s[k..k + |t|] == t
  }

  /** `s.indexOf(t, from)`: the first occurrence of `t` at or after `from`. */
  function IndexOf(s: string, t: string, from: nat): (r: Option<nat>)
    ensures r.Some? ==> from <= r.value && OccursAt(s, t, r.value)
    ensures r.Some? ==> forall k :: from <= k < r.value ==> !OccursAt(s, t, k)
    ensures r.None? ==> forall k :: from <= k ==> !OccursAt(s, t, k)
    decreases |s| - from
  {
    if from + |t| > |s| then None
    else if s[from..from + |t|] == t then Some(from)
    else IndexOf(s, t, from + 1)
  }

  /** `s.split(sep)` with a string separator (an empty one gives the characters). */
  function Split(s: string, sep: string): (r: seq<string>)
  {
    if sep == [] then Chars(s) else SplitFrom(s, sep, 0)
  }

  /** The pieces of `s[from..]` between occurrences of a non-empty `sep`. */
  function SplitFrom(s: string, sep: string, from: nat): (r: seq<string>)
    requires sep != [] && from <= |s|
    ensures |r| >= 1
    decreases |s| - from
  {
    match IndexOf(s, sep, from)
    case None => [s[from..]]
    case Some(i) => [s[from..i]] + SplitFrom(s, sep, i + |sep|)
  }

  /** `s.split('')`: one piece per character. */
  function Chars(s: string): (r: seq<string>)
    ensures |r| == |s|
  {
    if s == [] then [] else [[s[0]]] + Chars(s[1..])
  }

  /** `parts.join(sep)`. */
  function Join(parts: seq<string>, sep: string): string {
    if parts == [] then []
    else if |parts| == 1 then parts[0]
    else parts[0] + sep + Join(parts[1..], sep)
  }

  /** `s.split(pat).join(v)`, which is also what a global regex with a literal
      pattern (`/{int}/g`) does under `replace`. */
  function ReplaceAll(s: string, pat: string, v: string): string {
    Join(Split(s, pat), v)
  }

  /** The first occurrence of `pat` replaced by `v` taken literally: what
      `s.replace(pat, f)` gives with a function `f` returning `v`, and what
      `s.replace(pat, v)` gives when `v` has no `$` (`ReplaceFirstJsLiteral`). */
  function ReplaceFirst(s: string, pat: string, v: string): (r: string)
    ensures IndexOf(s, pat, 0).None? ==> r == s
    ensures IndexOf(s, pat, 0).Some? ==>
      var i := IndexOf(s, pat, 0).value; r == s[..i] + v + s[i + |pat|..]
  {
    match IndexOf(s, pat, 0)
    case None => s
    case Some(i) => s[..i] + v + s[i + |pat|..]
  }

  /** The replacement text of `String.prototype.replace` with a string
      pattern (GetSubstitution, section 22.1.3.19.1 of ECMA-262): `$$` gives
      `$`, `$&` the matched text, `` $` `` the text before it and `$'` the
      text after it. A string pattern has no capture groups, so `$1` or `$<`
      stay as they are, like every other character. */
  function Substitution(v: string, matched: string, before: string, after: string): string
    decreases |v|
  {
    if v == [] then []
    else if v[0] == '$' && |v| >= 2 && v[1] == '$' then "$" + Substitution(v[2..], matched, before, after)
    else if v[0] == '$' && |v| >= 2 && v[1] == '&' then matched + Substitution(v[2..], matched, before, after)
    else if v[0] == '$' && |v| >= 2 && v[1] == '`' then before + Substitution(v[2..], matched, before, after)
    else if v[0] == '$' && |v| >= 2 && v[1] == '\'' then after + Substitution(v[2..], matched, before, after)
    else [v[0]] + Substitution(v[1..], matched, before, after)
  }

  /** `s.replace(pat, v)` with a string pattern and a string replacement:
      only the first occurrence, with the `$` patterns of `v` interpreted. */
  function ReplaceFirstJs(s: string, pat: string, v: string): (r: string)
    ensures IndexOf(s, pat, 0).None? ==> r == s
    ensures IndexOf(s, pat, 0).Some? ==>
      var i := IndexOf(s, pat, 0).value;
      r == s[..i] + Substitution(v, pat, s[..i], s[i + |pat|..]) + s[i + |pat|..]
  {
    match IndexOf(s, pat, 0)
    case None => s
    case Some(i) => s[..i] + Substitution(v, pat, s[..i], s[i + |pat|..]) + s[i + |pat|..]
  }

  /** A replacement without `$` is inserted as it is. */
  lemma {:induction false} SubstitutionLiteral(v: string, matched: string, before: string, after: string)
    requires forall q :: 0 <= q < |v| ==> v[q] != '$'
    ensures Substitution(v, matched, before, after) == v
    decreases |v|
  {
    if v != [] {
      SubstitutionLiteral(v[1..], matched, before, after);
      assert v == [v[0]] + v[1..];
    }
  }

  lemma ReplaceFirstJsLiteral(s: string, pat: string, v: string)
    requires forall q :: 0 <= q < |v| ==> v[q] != '$'
    ensures ReplaceFirstJs(s, pat, v) == ReplaceFirst(s, pat, v)
  {
    if IndexOf(s, pat, 0).Some? {
      var i := IndexOf(s, pat, 0).value;
      SubstitutionLiteral(v, pat, s[..i], s[i + |pat|..]);
    }
  }

  /** Removes every occurrence of one character (`s.replace(/c/g, '')`). */
  function RemoveChar(s: string, c: char): (r: string)
    ensures forall i :: 0 <= i < |r| ==> r[i] != c
    ensures |r| <= |s|
  {
    if s == [] then []
    else (if s[0] == c then [] else [s[0]]) + RemoveChar(s[1..], c)
  }

  function CountChar(s: string, c: char): nat {
    if s == [] then 0 else (if s[0] == c then 1 else 0) + CountChar(s[1..], c)
  }

  /** `text.split(/\r?\n/g)`: split on `\n`, dropping one `\r` before each `\n`. */
  function SplitLines(s: string): (r: seq<string>)
    ensures |r| >= 1
  {
    var raw := Split(s, "\n");
    SplitNonEmpty(s, "\n");
    seq(|raw|, i requires 0 <= i < |raw| =>
      if i < |raw| - 1 && EndsWith(raw[i], "\r") then raw[i][..|raw[i]| - 1] else raw[i])
  }

  /** Length of the run of non-terminators starting at `from` (how far `.*` reaches). */
  function DotRun(s: string, from: nat): (n: nat)
    requires from <= |s|
    ensures from + n <= |s|
    ensures forall k :: from <= k < from + n ==> !IsLineTerminator(s[k])
    ensures from + n < |s| ==> IsLineTerminator(s[from + n])
    decreases |s| - from
  {
    if from == |s| || IsLineTerminator(s[from]) then 0 else 1 + DotRun(s, from + 1)
  }

  /** The end of the shortest `.*?c` starting at `from`: the first `c` at or
      after `from`, provided no line terminator comes before it. */
  function LazyClose(s: string, from: nat, c: char): (r: Option<nat>)
    requires !IsLineTerminator(c)
    ensures r.Some? ==> from <= r.value < |s| && s[r.value] == c
    ensures r.Some? ==> forall k :: from <= k < r.value ==> s[k] != c && !IsLineTerminator(s[k])
    decreases |s| - from
  {
    if from >= |s| || IsLineTerminator(s[from]) then None
    else if s[from] == c then Some(from)
    else LazyClose(s, from + 1, c)
  }

  /** Decimal rendering of a natural number, as `${n}` in a template. */
  function NatToString(n: nat): (r: string)
    ensures r != [] && AllDigits(r)
    ensures n >= 10 ==> r[0] != '0'
  {
    if n < 10 then [DigitChar(n)] else NatToString(n / 10) + [DigitChar(n % 10)]
  }

  function DigitChar(d: nat): (c: char)
    requires d < 10
    ensures IsDigit(c)
  {
    ('0' as int + d) as char
  }

  /** The value of a string of decimal digits (leading zeros allowed). */
  function DigitsValue(s: string): nat
    requires AllDigits(s)
  {
    if s == [] then 0 else DigitsValue(s[..|s| - 1]) * 10 + (s[|s| - 1] as int - '0' as int)
  }

  // ---------------------------------------------------------------- lemmas

  lemma SplitNonEmpty(s: string, sep: string)
    requires sep != []
    ensures |Split(s, sep)| >= 1
  {
  }

  /** Joining the pieces of a split with the same separator gives back the string. */
  lemma JoinSplit(s: string, sep: string)
    requires sep != []
    ensures Join(Split(s, sep), sep) == s
  {
    JoinSplitFrom(s, sep, 0);
    assert s[0..] == s;
  }

  lemma {:induction false} JoinSplitFrom(s: string, sep: string, from: nat)
    requires sep != [] && from <= |s|
    ensures Join(SplitFrom(s, sep, from), sep) == s[from..]
    decreases |s| - from
  {
    match IndexOf(s, sep, from)
    case None =>
    case Some(i) =>
      JoinSplitFrom(s, sep, i + |sep|);
      JoinCons(s[from..i], SplitFrom(s, sep, i + |sep|), sep);
      Reassemble(s, sep, from, i);
  }

  lemma JoinCons(a: string, rest: seq<string>, sep: string)
    requires rest != []
    ensures Join([a] + rest, sep) == a + sep + Join(rest, sep)
  {
    assert ([a] + rest)[1..] == rest;
  }

  /** Joining is associative across a cut. */
  lemma {:induction false} JoinAppend(a: seq<string>, b: seq<string>, sep: string)
    requires a != [] && b != []
    ensures Join(a + b, sep) == Join(a, sep) + sep + Join(b, sep)
    decreases |a|
  {
    assert (a + b)[0] == a[0];
    assert (a + b)[1..] == a[1..] + b;
    if |a| > 1 {
      JoinAppend(a[1..], b, sep);
    }
  }

  lemma Reassemble(s: string, t: string, from: nat, i: nat)
    requires from <= i && OccursAt(s, t, i)
    ensures s[from..i] + t + s[i + |t|..] == s[from..]
  {
    assert s[from..] == s[from..i] + s[i..i + |t|] + s[i + |t|..];
  }

  /** One piece, then the split after the separator. */
  lemma SplitFromStep(s: string, sep: string, from: nat, i: nat)
    requires sep != [] && from <= |s| && IndexOf(s, sep, from) == Some(i)
    ensures SplitFrom(s, sep, from) == [s[from..i]] + SplitFrom(s, sep, i + |sep|)
  {
  }

  /** With no further separator the rest is the last piece. */
  lemma SplitFromLast(s: string, sep: string, from: nat)
    requires sep != [] && from <= |s| && IndexOf(s, sep, from).None?
    ensures SplitFrom(s, sep, from) == [s[from..]]
  {
  }

  /** The first occurrence of a character at or after `from`. */
  lemma {:induction false} IndexOfChar(s: string, c: char, from: nat, q: nat)
    requires from <= q < |s| && s[q] == c && forall j :: from <= j < q ==> s[j] != c
    ensures IndexOf(s, [c], from) == Some(q)
    decreases q - from
  {
    assert s[from..from + 1] == [s[from]];
    if from < q {
      IndexOfChar(s, c, from + 1, q);
    }
  }

  /** Splitting on a character: the piece up to its next occurrence at `q`. */
  lemma SplitFromChar(s: string, c: char, from: nat, q: nat)
    requires from <= q < |s| && s[q] == c && forall j :: from <= j < q ==> s[j] != c
    ensures SplitFrom(s, [c], from) == [s[from..q]] + SplitFrom(s, [c], q + 1)
  {
    IndexOfChar(s, c, from, q);
    SplitFromStep(s, [c], from, q);
  }

  /** Splitting on a character the rest lacks: the rest is the last piece. */
  lemma SplitFromNoChar(s: string, c: char, from: nat)
    requires from <= |s| && forall j :: from <= j < |s| ==> s[j] != c
    ensures SplitFrom(s, [c], from) == [s[from..]]
  {
    forall k | from <= k && k + 1 <= |s| ensures !OccursAt(s, [c], k) {
      assert s[k..k + 1] == [s[k]];
    }
    SplitFromLast(s, [c], from);
  }

  /** Three pieces free of a character, joined by it, split back into them. */
  lemma SplitThreeOn(a: string, b: string, c: string, d: char)
    requires d !in a && d !in b && d !in c
    ensures Split(a + [d] + b + [d] + c, [d]) == [a, b, c]
  {
    var s := a + [d] + b + [d] + c;
    var p, q := |a|, |a| + 1 + |b|;
    SliceThree(a, b, c, d);
    SplitAtTwo(s, d, p, q);
    assert [s[0..p], s[p + 1..q], s[q + 1..]] == [a, b, c];
  }

  /** A text with the character at exactly `p` and `q` splits into three pieces. */
  lemma SplitAtTwo(s: string, d: char, p: nat, q: nat)
    requires p < q < |s| && s[p] == d && s[q] == d
    requires forall j :: 0 <= j < p ==> s[j] != d
    requires forall j :: p < j < q ==> s[j] != d
    requires forall j :: q < j < |s| ==> s[j] != d
    ensures Split(s, [d]) == [s[0..p], s[p + 1..q], s[q + 1..]]
  {
    SplitFromChar(s, d, 0, p);
    SplitFromChar(s, d, p + 1, q);
    SplitFromNoChar(s, d, q + 1);
  }

  lemma SliceThree(a: string, b: string, c: string, d: char)
    requires d !in a && d !in b && d !in c
    ensures var s := a + [d] + b + [d] + c; var p, q := |a|, |a| + 1 + |b|;
      |s| == q + 1 + |c| && s[p] == d && s[q] == d &&
      (forall j :: 0 <= j < p ==> s[j] != d) && (forall j :: p < j < q ==> s[j] != d) &&
      (forall j :: q < j < |s| ==> s[j] != d) &&
      s[0..p] == a && s[p + 1..q] == b && s[q + 1..] == c
  {
    var s := a + [d] + b + [d] + c;
    var p, q := |a|, |a| + 1 + |b|;
    assert forall j :: 0 <= j < p ==> s[j] == a[j];
    assert forall j :: p < j < q ==> s[j] == b[j - p - 1];
    assert forall j :: q < j < |s| ==> s[j] == c[j - q - 1];
    assert s[0..p] == a;
    assert s[p + 1..q] == b;
    assert s[q + 1..] == c;
  }

  lemma {:induction false} DigitsValueOfNatToString(n: nat)
    ensures DigitsValue(NatToString(n)) == n
  {
    if n >= 10 {
      DigitsValueOfNatToString(n / 10);
      var s := NatToString(n / 10) + [DigitChar(n % 10)];
      assert s[..|s| - 1] == NatToString(n / 10);
    }
  }

  lemma SplitPiecesShort(s: string, c: char)
    ensures forall p :: p in Split(s, [c]) ==> |p| <= |s| && forall q :: 0 <= q < |p| ==> p[q] in s
  {
    SplitFromShort(s, c, 0);
  }

  /** Every piece of `ps` has at most `n` characters, all taken from `s`. */
  predicate ShortPieces(ps: seq<string>, s: string, n: int) {
    forall p :: p in ps ==> |p| <= n && forall q :: 0 <= q < |p| ==> p[q] in s
  }

  lemma {:induction false} SplitFromShort(s: string, c: char, from: nat)
    requires from <= |s|
    ensures ShortPieces(SplitFrom(s, [c], from), s, |s| - from)
    decreases |s| - from
  {
    match IndexOf(s, [c], from)
    case None =>
      SplitFromLast(s, [c], from);
      PieceOfText(s, from, |s|);
      ShortCons(s[from..], [], s, |s| - from);
    case Some(i) =>
      SplitFromShort(s, c, i + 1);
      SplitFromStep(s, [c], from, i);
      PieceOfText(s, from, i);
      ShortCons(s[from..i], SplitFrom(s, [c], i + 1), s, |s| - from);
  }

  lemma ShortCons(h: string, ps: seq<string>, s: string, n: int)
    requires |h| <= n && (forall q :: 0 <= q < |h| ==> h[q] in s) && ShortPieces(ps, s, n)
    ensures ShortPieces([h] + ps, s, n)
  {
  }

  lemma PieceOfText(s: string, from: nat, to: nat)
    requires from <= to <= |s|
    ensures forall q :: 0 <= q < to - from ==> s[from..to][q] in s
  {
    forall q | 0 <= q < to - from ensures s[from..to][q] in s {
      assert s[from..to][q] == s[from + q];
    }
  }

  lemma SplitPiecesAvoid(s: string, t: string)
    requires t != []
    ensures forall p :: p in Split(s, t) ==> IndexOf(p, t, 0).None?
  {
    SplitFromAvoid(s, t, 0);
  }

  /** No piece of `ps` contains `t`. */
  predicate Avoids(ps: seq<string>, t: string) {
    forall p :: p in ps ==> IndexOf(p, t, 0).None?
  }

  lemma {:induction false} SplitFromAvoid(s: string, t: string, from: nat)
    requires t != [] && from <= |s|
    ensures Avoids(SplitFrom(s, t, from), t)
    decreases |s| - from
  {
    match IndexOf(s, t, from)
    case None =>
      SplitFromLast(s, t, from);
      TailAvoids(s, t, from);
      AvoidsCons(s[from..], [], t);
    case Some(i) =>
      SplitFromAvoid(s, t, i + |t|);
      SplitFromStep(s, t, from, i);
      HeadAvoids(s, t, from, i);
      AvoidsCons(s[from..i], SplitFrom(s, t, i + |t|), t);
  }

  lemma AvoidsCons(h: string, ps: seq<string>, t: string)
    requires IndexOf(h, t, 0).None? && Avoids(ps, t)
    ensures Avoids([h] + ps, t)
  {
  }

  /** The text before the next occurrence contains none. */
  lemma HeadAvoids(s: string, t: string, from: nat, i: nat)
    requires t != [] && from <= |s| && IndexOf(s, t, from) == Some(i)
    ensures IndexOf(s[from..i], t, 0).None?
  {
    forall k: nat ensures !OccursAt(s[from..i], t, k) {
      OccursInSlice(s, t, from, i, k);
    }
  }

  /** With no further occurrence, the rest contains none. */
  lemma TailAvoids(s: string, t: string, from: nat)
    requires t != [] && from <= |s| && IndexOf(s, t, from).None?
    ensures IndexOf(s[from..], t, 0).None?
  {
    forall k: nat ensures !OccursAt(s[from..], t, k) {
      OccursInSlice(s, t, from, |s|, k);
      assert s[from..|s|] == s[from..];
    }
  }

  /** An occurrence in a slice is an occurrence in the text. */
  lemma OccursInSlice(s: string, t: string, from: nat, to: nat, k: nat)
    requires from <= to <= |s|
    ensures OccursAt(s[from..to], t, k) ==> OccursAt(s, t, from + k)
  {
    if OccursAt(s[from..to], t, k) {
      var u := s[from..to];
      assert k + |t| <= |u|;
      var a, b := s[from + k..from + k + |t|], u[k..k + |t|];
      assert forall j :: 0 <= j < |t| ==> a[j] == b[j];
      assert a == b;
    }
  }

  /** No line of `SplitLines` holds a `\n`. */
  lemma SplitLinesNoNewline(s: string)
    ensures forall i :: 0 <= i < |SplitLines(s)| ==> '\n' !in SplitLines(s)[i]
  {
    var raw := Split(s, "\n");
    SplitPiecesAvoid(s, "\n");
    forall i | 0 <= i < |SplitLines(s)| ensures '\n' !in SplitLines(s)[i] {
      var p, l := raw[i], SplitLines(s)[i];
      assert p in raw;
      NoOccurrenceOfChar(p, '\n');
      assert forall k :: 0 <= k < |l| ==> l[k] == p[k];
    }
  }

  /** A text without `\n` is one line: itself, even with a trailing `\r`. */
  lemma SplitLinesSingle(s: string)
    requires '\n' !in s
    ensures SplitLines(s) == [s]
  {
    forall k: nat ensures !OccursAt(s, "\n", k) {
      if k + 1 <= |s| {
        assert s[k..k + 1] == [s[k]];
      }
    }
    assert s[0..] == s;
  }

  /** Without `\r` the lines are the pieces between the `\n`s, and joining
      them with `\n` gives the text back. */
  lemma SplitLinesJoin(s: string)
    requires '\r' !in s
    ensures SplitLines(s) == Split(s, "\n")
    ensures Join(SplitLines(s), "\n") == s
  {
    var raw := Split(s, "\n");
    SplitPiecesShort(s, '\n');
    forall i | 0 <= i < |raw| ensures !EndsWith(raw[i], "\r") {
      assert raw[i] in raw;
      if raw[i] != [] {
        assert raw[i][|raw[i]| - 1] in s;
      }
    }
    JoinSplit(s, "\n");
  }

  lemma NoOccurrenceOfChar(p: string, c: char)
    requires IndexOf(p, [c], 0).None?
    ensures c !in p
  {
    forall k | 0 <= k < |p| ensures p[k] != c {
      assert !OccursAt(p, [c], k);
      assert p[k..k + 1] == [p[k]];
    }
  }

  /** The lazy `.*?c` from `from` stops at the first `c`, when no line
      terminator comes before it. */
  lemma {:induction false} LazyCloseAt(s: string, from: nat, c: char, e: nat)
    requires !IsLineTerminator(c) && from <= e < |s| && s[e] == c
    requires forall k :: from <= k < e ==> s[k] != c && !IsLineTerminator(s[k])
    ensures LazyClose(s, from, c) == Some(e)
    decreases e - from
  {
    if from < e {
      LazyCloseAt(s, from + 1, c, e);
    }
  }

  /** Replacing a pattern that does not occur changes nothing. */
  lemma ReplaceAllAbsent(s: string, t: string, v: string)
    requires t != [] && IndexOf(s, t, 0).None?
    ensures ReplaceAll(s, t, v) == s
  {
    SplitFromLast(s, t, 0);
    assert s[0..] == s;
  }

  /** A character in neither the parts nor the separator is not in the join. */
  lemma {:induction false} JoinAvoidsChar(parts: seq<string>, sep: string, c: char)
    requires c !in sep && forall k :: 0 <= k < |parts| ==> c !in parts[k]
    ensures c !in Join(parts, sep)
    decreases |parts|
  {
    if |parts| > 1 {
      JoinAvoidsChar(parts[1..], sep, c);
    }
  }

  /** One character in front of a slice and a rest is the longer slice and the rest. */
  lemma ConsSlice(s: string, i: nat, j: nat, rest: string)
    requires i < j <= |s|
    ensures [s[i]] + (s[i + 1..j] + rest) == s[i..j] + rest
  {
    assert s[i..j] == [s[i]] + s[i + 1..j];
  }

  /** Where the three parts of `a + m + b` are. */
  lemma PartsOf(a: string, m: string, b: string)
    ensures var s := a + m + b;
      |s| == |a| + |m| + |b| &&
      s[..|a|] == a && s[|a|..|a| + |m|] == m && s[|a| + |m|..] == b
  {
  }

  lemma InFront(a: string, m: string, b: string, k: nat)
    requires k < |a|
    ensures (a + m + b)[k] == a[k]
  {
  }

  lemma InMiddle(a: string, m: string, b: string, k: nat)
    requires k < |m|
    ensures (a + m + b)[|a| + k] == m[k]
  {
  }

  lemma InBack(a: string, m: string, b: string, k: nat)
    requires k < |b|
    ensures (a + m + b)[|a| + |m| + k] == b[k]
  {
  }

  /** Two unfoldings `r == x + ri` and `ri == y + re`, and `re == z`, give `r == x + y + z`. */
  lemma Chain(r: string, ri: string, re: string, x: string, y: string, z: string)
    requires r == x + ri && ri == y + re && re == z
    ensures r == x + y + z
  {
  }

  /** As `Chain`, where the middle part starts with a character `c` the
      prefix takes over: `x + [c] == w` gives `r == w + y + z`. */
  lemma ChainKept(r: string, ri: string, re: string, x: string, c: char, y: string, z: string, w: string)
    requires r == x + ri && ri == [c] + y + re && re == z && x + [c] == w
    ensures r == w + y + z
  {
  }

  /** A prefix is the shorter prefix and its last character. */
  lemma PrefixSnoc(s: string, m: nat)
    requires 0 < m <= |s|
    ensures s[0..m - 1] + [s[m - 1]] == s[..m]
  {
  }

  /** A four-way concatenation regrouped around its middle three parts. */
  lemma Regroup(a: string, x: string, w: string, y: string, b: string)
    ensures a + x + w + y + b == a + (x + w + y) + b
  {
  }
}
