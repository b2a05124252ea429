/** Scenario-outline support: the variables a feature document defines in its
    `Examples:` tables (`getOutlineVars`, gserver/src/steps.handler.ts:247-260)
    and the substitution of `<name>` placeholders in a step line, plain or
    wrapped in double quotes (gserver/src/steps.handler.ts:262-292). */
module Outline {
  import opened Wrappers
  import opened Strings

  /** `row.split` on the expression `\s*\|\s*`: cut at each `|`, and drop the white space on
      both sides of every cut. */
  function SplitCells(row: string): (r: seq<string>)
    ensures |r| == |Split(row, "|")|
  {
    var pieces := Split(row, "|");
    var n := |pieces|;
    seq(n, k requires 0 <= k < n =>
      var p := pieces[k];
      var left := if k > 0 then TrimStart(p) else p;
      if k < n - 1 then TrimEnd(left) else left)
  }

  /** `.slice(1, -1)`. */
  function Inner<T>(s: seq<T>): (r: seq<T>)
    ensures |s| >= 2 ==> r == s[1..|s| - 1]
    ensures |s| < 2 ==> r == []
  {
    if |s| >= 2 then s[1..|s| - 1] else []
  }

  /** `names.forEach((n, i) => { if (values[i]) res[n] = values[i]; })`, from index `j`. */
  function AddRow(res: map<string, string>, names: seq<string>, values: seq<string>, j: nat)
    : (r: map<string, string>)
    decreases |names| - j
  {
    if j >= |names| then res
    else
      var next := if j < |values| && values[j] != "" then res[names[j] := values[j]] else res;
      AddRow(next, names, values, j + 1)
  }

  /** A line that is `Examples:` with optional white space around it. */
  predicate IsExamplesHeader(line: string) {
    Trim(line) == "Examples:"
  }

  /** The `reduce` over the lines from index `i`. A header counts when the line
      two below it exists and is not empty; its names are on the next line. */
  function CollectVars(lines: seq<string>, i: nat, res: map<string, string>): map<string, string>
    decreases |lines| - i
  {
    if i >= |lines| then res
    else
      var next :=
        if IsExamplesHeader(lines[i]) && i + 2 < |lines| && lines[i + 2] != "" then
          AddRow(res, Inner(SplitCells(lines[i + 1])), Inner(SplitCells(lines[i + 2])), 0)
        else res;
      CollectVars(lines, i + 1, next)
  }

  /** `getOutlineVars`: every `Examples:` table of the document, later tables
      overriding earlier ones. */
  function OutlineVars(text: string): map<string, string> {
    CollectVars(SplitLines(text), 0, map[])
  }

  /** The matches of `/<.*?>/g` from `i`. */
  function Placeholders(line: string, i: nat): seq<string>
    decreases |line| - i
  {
    if i >= |line| then []
    else if line[i] == '<' && LazyClose(line, i + 1, '>').Some? then
      var j := LazyClose(line, i + 1, '>').value;
      [line[i..j + 1]] + Placeholders(line, j + 1)
    else Placeholders(line, i + 1)
  }

  /** `s.replace(/<|>/g, '')`. */
  function PlaceholderKey(m: string): string {
    RemoveChar(RemoveChar(m, '<'), '>')
  }

  /** The `reduce` that puts each defined variable in place of the first
      `<key>` left in the line, quoted or not. */
  function Substitute(line: string, keys: seq<string>, vars: map<string, string>, quoted: bool): string
    decreases |keys|
  {
    if keys == [] then line
    else
      var k := keys[0];
      var next :=
        if k in vars && vars[k] != "" then
          ReplaceFirstJs(line, "<" + k + ">", if quoted then "\"" + vars[k] + "\"" else vars[k])
        else line;
      Substitute(next, keys[1..], vars, quoted)
  }

  function Keys(ms: seq<string>): (r: seq<string>)
    ensures |r| == |ms|
    ensures forall k :: 0 <= k < |ms| ==> r[k] == PlaceholderKey(ms[k])
  {
    if ms == [] then [] else [PlaceholderKey(ms[0])] + Keys(ms[1..])
  }

  // ------------------------------------------------------------------------
  // Properties

  predicate NonEmptyValues(m: map<string, string>) {
    forall n :: n in m ==> m[n] != ""
  }

  /** `<`, then no `>` or line terminator, then `>`. */
  predicate IsPlaceholder(m: string) {
    |m| >= 2 && m[0] == '<' && m[|m| - 1] == '>' &&
    (forall k :: 0 < k < |m| - 1 ==> m[k] != '>' && !IsLineTerminator(m[k]))
  }

  /** Only non-empty values are ever stored. */
  lemma {:induction false} AddRowValuesNonEmpty(res: map<string, string>, names: seq<string>, values: seq<string>, j: nat)
    requires NonEmptyValues(res)
    ensures NonEmptyValues(AddRow(res, names, values, j))
    decreases |names| - j
  {
    if j < |names| {
      var next := if j < |values| && values[j] != "" then res[names[j] := values[j]] else res;
      AddRowValuesNonEmpty(next, names, values, j + 1);
    }
  }

  /** A row leaves every name it does not mention as it was, and sets a name
      it mentions exactly once to that column's value when the value is not
      empty. */
  lemma {:induction false} AddRowSets(res: map<string, string>, names: seq<string>, values: seq<string>, j: nat, n: string)
    requires j <= |names|
    ensures n !in names[j..] ==> (n in AddRow(res, names, values, j) <==> n in res)
    ensures n !in names[j..] && n in res ==> AddRow(res, names, values, j)[n] == res[n]
    ensures forall c :: (j <= c < |names| && c < |values| && names[c] == n && values[c] != "" &&
        (forall d :: j <= d < |names| && d != c ==> names[d] != n)) ==>
      n in AddRow(res, names, values, j) && AddRow(res, names, values, j)[n] == values[c]
    decreases |names| - j
  {
    if j < |names| {
      var next := if j < |values| && values[j] != "" then res[names[j] := values[j]] else res;
      AddRowSets(next, names, values, j + 1, n);
      assert names[j..] == [names[j]] + names[j + 1..];
    }
  }

  lemma {:induction false} CollectVarsNonEmpty(lines: seq<string>, i: nat, res: map<string, string>)
    requires NonEmptyValues(res)
    ensures NonEmptyValues(CollectVars(lines, i, res))
    decreases |lines| - i
  {
    if i < |lines| {
      if IsExamplesHeader(lines[i]) && i + 2 < |lines| && lines[i + 2] != "" {
        var names := Inner(SplitCells(lines[i + 1]));
        var values := Inner(SplitCells(lines[i + 2]));
        AddRowValuesNonEmpty(res, names, values, 0);
        CollectVarsNonEmpty(lines, i + 1, AddRow(res, names, values, 0));
      } else {
        CollectVarsNonEmpty(lines, i + 1, res);
      }
    }
  }

  /** Every outline variable has a non-empty value, so the truthiness test on
      `outlineVars[key]` amounts to the key being defined. */
  lemma OutlineValuesNonEmpty(text: string)
    ensures NonEmptyValues(OutlineVars(text))
  {
    CollectVarsNonEmpty(SplitLines(text), 0, map[]);
  }

  /** Every placeholder found starts with `<`, ends with `>`, and has no `>`
      or line terminator inside. */
  lemma {:induction false} PlaceholdersShape(line: string, i: nat)
    ensures forall m :: m in Placeholders(line, i) ==> IsPlaceholder(m)
    decreases |line| - i
  {
    if i < |line| {
      if line[i] == '<' && LazyClose(line, i + 1, '>').Some? {
        var j := LazyClose(line, i + 1, '>').value;
        PlaceholdersShape(line, j + 1);
        var m := line[i..j + 1];
        assert forall k :: 0 < k < |m| - 1 ==> m[k] == line[i + k];
      } else {
        PlaceholdersShape(line, i + 1);
      }
    }
  }

  /** A line without defined placeholders is left as it is. */
  lemma {:induction false} SubstituteUndefined(line: string, keys: seq<string>, vars: map<string, string>, quoted: bool)
    requires forall k :: k in keys ==> k !in vars
    ensures Substitute(line, keys, vars, quoted) == line
    decreases |keys|
  {
    if keys != [] {
      SubstituteUndefined(line, keys[1..], vars, quoted);
    }
  }

  /** A defined key whose placeholder is in the line is replaced at its first
      occurrence, plainly or in double quotes, with the `$` patterns of the
      value interpreted as `replace` does. */
  lemma SubstituteOne(line: string, k: string, vars: map<string, string>, quoted: bool)
    requires k in vars && vars[k] != "" && IndexOf(line, "<" + k + ">", 0).Some?
    ensures var i := IndexOf(line, "<" + k + ">", 0).value;
      var v := if quoted then "\"" + vars[k] + "\"" else vars[k];
      Substitute(line, [k], vars, quoted) ==
        line[..i] + Substitution(v, "<" + k + ">", line[..i], line[i + |k| + 2..]) + line[i + |k| + 2..]
  {
    assert [k][1..] == [];
  }

  /** A value without `$` is put in as it is, in place of the first `<key>`. */
  lemma SubstituteOneLiteral(line: string, k: string, vars: map<string, string>, quoted: bool)
    requires k in vars && vars[k] != ""
    requires forall q :: 0 <= q < |vars[k]| ==> vars[k][q] != '$'
    ensures Substitute(line, [k], vars, quoted) ==
      ReplaceFirst(line, "<" + k + ">", if quoted then "\"" + vars[k] + "\"" else vars[k])
  {
    var x := vars[k];
    var v := if quoted then "\"" + x + "\"" else x;
    if quoted {
      QuotedNoDollar(x);
    }
    assert [k][1..] == [];
    assert Substitute(line, [k], vars, quoted) == ReplaceFirstJs(line, "<" + k + ">", v);
    ReplaceFirstJsLiteral(line, "<" + k + ">", v);
  }

  lemma QuotedNoDollar(x: string)
    requires forall q :: 0 <= q < |x| ==> x[q] != '$'
    ensures forall q :: 0 <= q < |x| + 2 ==> ("\"" + x + "\"")[q] != '$'
  {
    var v := "\"" + x + "\"";
    forall q | 0 <= q < |v| ensures v[q] != '$' {
      if 0 < q < |v| - 1 {
        assert v[q] == x[q - 1];
      }
    }
  }

  /** The value `$$` puts in a single `$`. */
  lemma SubstituteDollarDollar(line: string, k: string, vars: map<string, string>)
    requires k in vars && vars[k] == "$$" && IndexOf(line, "<" + k + ">", 0).Some?
    ensures var i := IndexOf(line, "<" + k + ">", 0).value;
      Substitute(line, [k], vars, false) == line[..i] + "$" + line[i + |k| + 2..]
  {
    SubstituteOne(line, k, vars, false);
    var i := IndexOf(line, "<" + k + ">", 0).value;
    DollarDollar("<" + k + ">", line[..i], line[i + |k| + 2..]);
  }

  lemma DollarDollar(matched: string, before: string, after: string)
    ensures Substitution("$$", matched, before, after) == "$"
  {
    assert Substitution("$$", matched, before, after) == "$" + Substitution("", matched, before, after);
  }
}
