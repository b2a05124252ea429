// Block comments of a step-definition file, keyed by the line they document
// (`getMultiLineComments`, gserver/src/steps.handler.ts:640-677). A comment
// runs from a line starting (after white space) with `/*` to a line starting
// with `*/`, and belongs to the first non-blank line after it.
module Comments {
  import opened Wrappers
  import opened Strings

  /** The line matches `^\s*p`: white space, then `p`. */
  predicate LeadsWith(line: string, p: string)
    decreases |line|
  {
    StartsWith(line, p) || (line != [] && IsSpace(line[0]) && LeadsWith(line[1..], p))
  }

  // `line.search(/^\s*\/\*/)` finds a match.
  predicate Opens(line: string) { LeadsWith(line, "/*") }

  // `line.search(/^\s*\*\//)` finds a match.
  predicate Closes(line: string) { LeadsWith(line, "*/") }

  /** `line.trim() === ''` (see `BlankIsTrimmedEmpty`): only white space. */
  predicate Blank(line: string) { AllSpace(line) }

  lemma BlankIsTrimmedEmpty(line: string)
    ensures Blank(line) <==> Trim(line) == ""
  {
    var t := TrimStart(line);
    if Trim(line) == "" {
      if t != [] {
        assert false;
      }
      assert line[..|line|] == line;
    }
  }

  /** The first line at or after `j` that is not blank, or `|lines|`. */
  function NextNonBlank(lines: seq<string>, j: nat): (k: nat)
    requires j <= |lines|
    ensures j <= k <= |lines|
    ensures forall q :: j <= q < k ==> Blank(lines[q])
    ensures k < |lines| ==> !Blank(lines[k])
    decreases |lines| - j
  {
    if j == |lines| || !Blank(lines[j]) then j else NextNonBlank(lines, j + 1)
  }

  /** The loop state: the comment text gathered so far and `commentMode`. */
  datatype ScanState = ScanState(current: string, commentMode: bool, comments: map<nat, string>)

  /** One round of the loop for line `i`. */
  function ScanLine(lines: seq<string>, i: nat, st: ScanState): ScanState
    requires i < |lines|
  {
    var line := lines[i];
    if Opens(line) then ScanState(line + "\n", true, st.comments)
    else if Closes(line) then
      var text := st.current + line + "\n";
      var next := NextNonBlank(lines, i + 1);
      ScanState("", false, if next < |lines| then st.comments[next := text] else st.comments)
    else if st.commentMode then ScanState(st.current + line + "\n", true, st.comments)
    else st
  }

  /** The state after the rounds for lines `i` onwards. */
  function Scan(lines: seq<string>, i: nat, st: ScanState): ScanState
    decreases |lines| - i
  {
    if i >= |lines| then st else Scan(lines, i + 1, ScanLine(lines, i, st))
  }

  function CommentsOf(content: string): map<nat, string> {
    Scan(SplitLines(content), 0, ScanState("", false, map[])).comments
  }

  /** `getMultiLineComments`. */
  method MultiLineComments(content: string) returns (comments: map<nat, string>)
    ensures comments == CommentsOf(content)
  {
    var lines := SplitLines(content);
    comments := map[];
    var current := "";
    var commentMode := false;
    var i := 0;
    while i < |lines|
      invariant 0 <= i <= |lines|
      invariant Scan(lines, i, ScanState(current, commentMode, comments)) == Scan(lines, 0, ScanState("", false, map[]))
    {
      ghost var st := ScanState(current, commentMode, comments);
      current, commentMode, comments := ScanRound(lines, i, current, commentMode, comments);
      ScanNext(lines, i, st, ScanState(current, commentMode, comments));
      i := i + 1;
    }
  }

  /** The body of the loop of `getMultiLineComments` for line `i`. */
  method ScanRound(lines: seq<string>, i: nat, current0: string, commentMode0: bool, comments0: map<nat, string>)
    returns (current: string, commentMode: bool, comments: map<nat, string>)
    requires i < |lines|
    ensures ScanState(current, commentMode, comments) == ScanLine(lines, i, ScanState(current0, commentMode0, comments0))
  {
    current, commentMode, comments := current0, commentMode0, comments0;
    var line := lines[i];
    if Opens(line) {
      current := line + "\n";
      commentMode := true;
    } else if Closes(line) {
      current := current + line + "\n";
      commentMode := false;
      var nextLineIndex := SkipBlankLines(lines, i + 1);
      if nextLineIndex < |lines| {
        comments := comments[nextLineIndex := current];
      }
      current := "";
    } else if commentMode {
      current := current + line + "\n";
    }
  }

  /** The inner loop of `getMultiLineComments`: the blank lines after a
      closing line are skipped. */
  method SkipBlankLines(lines: seq<string>, from: nat) returns (nextLineIndex: nat)
    requires from <= |lines|
    ensures nextLineIndex == NextNonBlank(lines, from)
  {
    nextLineIndex := from;
    while nextLineIndex < |lines| && Trim(lines[nextLineIndex]) == ""
      invariant from <= nextLineIndex <= |lines|
      invariant NextNonBlank(lines, from) == NextNonBlank(lines, nextLineIndex)
    {
      BlankIsTrimmedEmpty(lines[nextLineIndex]);
      nextLineIndex := nextLineIndex + 1;
    }
    if nextLineIndex < |lines| {
      BlankIsTrimmedEmpty(lines[nextLineIndex]);
    }
  }

  /** One round of the scan. */
  lemma ScanNext(lines: seq<string>, i: nat, st: ScanState, next: ScanState)
    requires i < |lines| && next == ScanLine(lines, i, st)
    ensures Scan(lines, i, st) == Scan(lines, i + 1, next)
  {
  }

  // ------------------------------------------------------------------------
  // Properties

  /** Every stored comment documents a non-blank line of the file and is a
      non-empty text ending with a newline. */
  predicate WellPlaced(lines: seq<string>, comments: map<nat, string>) {
    forall k :: k in comments ==> k < |lines| && !Blank(lines[k]) && EndsWith(comments[k], "\n")
  }

  lemma {:induction false} ScanWellPlaced(lines: seq<string>, i: nat, st: ScanState)
    requires WellPlaced(lines, st.comments)
    ensures WellPlaced(lines, Scan(lines, i, st).comments)
    decreases |lines| - i
  {
    if i < |lines| {
      ScanLineWellPlaced(lines, i, st);
      ScanWellPlaced(lines, i + 1, ScanLine(lines, i, st));
    }
  }

  lemma ScanLineWellPlaced(lines: seq<string>, i: nat, st: ScanState)
    requires i < |lines| && WellPlaced(lines, st.comments)
    ensures WellPlaced(lines, ScanLine(lines, i, st).comments)
  {
    var line := lines[i];
    if !Opens(line) && Closes(line) {
      var next := NextNonBlank(lines, i + 1);
      if next < |lines| {
        StoreWellPlaced(lines, st.comments, next, st.current + line);
      }
    }
  }

  lemma StoreWellPlaced(lines: seq<string>, comments: map<nat, string>, k: nat, body: string)
    requires WellPlaced(lines, comments) && k < |lines| && !Blank(lines[k])
    ensures WellPlaced(lines, comments[k := body + "\n"])
  {
    var text := body + "\n";
    assert text[|text| - 1..] == "\n";
  }

  lemma CommentsWellPlaced(content: string)
    ensures WellPlaced(SplitLines(content), CommentsOf(content))
  {
    ScanWellPlaced(SplitLines(content), 0, ScanState("", false, map[]));
  }

  /** A comment is stored only at a line that follows a closing line across
      blank lines only. */
  predicate AfterClosing(lines: seq<string>, comments: map<nat, string>) {
    forall k :: k in comments ==> exists c :: 0 <= c < k && c < |lines| && k == NextNonBlank(lines, c + 1) && Closes(lines[c])
  }

  lemma {:induction false} ScanAfterClosing(lines: seq<string>, i: nat, st: ScanState)
    requires AfterClosing(lines, st.comments)
    ensures AfterClosing(lines, Scan(lines, i, st).comments)
    decreases |lines| - i
  {
    if i < |lines| {
      ScanLineAfterClosing(lines, i, st);
      ScanAfterClosing(lines, i + 1, ScanLine(lines, i, st));
    }
  }

  lemma ScanLineAfterClosing(lines: seq<string>, i: nat, st: ScanState)
    requires i < |lines| && AfterClosing(lines, st.comments)
    ensures AfterClosing(lines, ScanLine(lines, i, st).comments)
  {
    var line := lines[i];
    var k := NextNonBlank(lines, i + 1);
    if !Opens(line) && Closes(line) && k < |lines| {
      assert ScanLine(lines, i, st).comments == st.comments[k := st.current + line + "\n"];
      StoreAfterClosing(lines, st.comments, i, st.current + line + "\n");
    } else {
      assert ScanLine(lines, i, st).comments == st.comments;
    }
  }

  lemma StoreAfterClosing(lines: seq<string>, comments: map<nat, string>, i: nat, text: string)
    requires i < |lines| && Closes(lines[i]) && AfterClosing(lines, comments)
    ensures AfterClosing(lines, comments[NextNonBlank(lines, i + 1) := text])
  {
    var k := NextNonBlank(lines, i + 1);
    var stored := comments[k := text];
    forall q | q in stored
      ensures exists c :: 0 <= c < q && c < |lines| && q == NextNonBlank(lines, c + 1) && Closes(lines[c])
    {
      if q == k {
        assert 0 <= i < q && q == NextNonBlank(lines, i + 1) && Closes(lines[i]);
      }
    }
  }

  lemma CommentsAfterClosing(content: string)
    ensures AfterClosing(SplitLines(content), CommentsOf(content))
  {
    ScanAfterClosing(SplitLines(content), 0, ScanState("", false, map[]));
  }

  // ------------------------------------------------------------------------
  // What is stored: every closed block, with its text

  predicate Marker(line: string) { Opens(line) || Closes(line) }

  /** The last line before `i` that opens or closes a comment. */
  function LastMarker(lines: seq<string>, i: nat): (r: Option<nat>)
    requires i <= |lines|
    ensures r.Some? ==> r.value < i && Marker(lines[r.value])
    ensures r.Some? ==> forall q :: r.value < q < i ==> !Marker(lines[q])
    ensures r.None? ==> forall q :: 0 <= q < i ==> !Marker(lines[q])
  {
    if i == 0 then None
    else if Marker(lines[i - 1]) then Some(i - 1)
    else LastMarker(lines, i - 1)
  }

  /** Lines `a` up to (not including) `b`, each followed by a newline. */
  function Block(lines: seq<string>, a: nat, b: nat): string
    requires b <= |lines|
    decreases b
  {
    if b <= a then "" else Block(lines, a, b - 1) + lines[b - 1] + "\n"
  }

  /** Where the comment closed at line `c` starts: the opening line when the
      last marker before `c` opens a comment, otherwise `c` itself. */
  function BlockStart(lines: seq<string>, c: nat): (o: nat)
    requires c <= |lines|
    ensures o <= c
    ensures o < c ==> Opens(lines[o]) && forall q :: o < q < c ==> !Marker(lines[q])
    ensures o == c ==> LastMarker(lines, c).None? || Closes(lines[LastMarker(lines, c).value])
  {
    match LastMarker(lines, c)
    case Some(q) => if Opens(lines[q]) then q else c
    case None => c
  }

  /** The text stored for the comment closed at line `c`: its lines from
      `BlockStart` through `c`. */
  function BlockText(lines: seq<string>, c: nat): string
    requires c < |lines|
  {
    Block(lines, BlockStart(lines, c), c + 1)
  }

  /** The state after the first `n` rounds of the loop. */
  function Run(lines: seq<string>, n: nat): ScanState
    requires n <= |lines|
  {
    if n == 0 then ScanState("", false, map[]) else ScanLine(lines, n - 1, Run(lines, n - 1))
  }

  lemma {:induction false} ScanRun(lines: seq<string>, i: nat)
    requires i <= |lines|
    ensures Scan(lines, i, Run(lines, i)) == Run(lines, |lines|)
    decreases |lines| - i
  {
    if i < |lines| {
      ScanRun(lines, i + 1);
    }
  }

  /** A line cannot both open and close a comment, and a closing line is not
      blank. */
  lemma {:induction false} ClosesShape(line: string)
    requires Closes(line)
    ensures !Opens(line) && !Blank(line)
    decreases |line|
  {
    if StartsWith(line, "*/") {
      assert line[0] == '*';
    } else {
      ClosesShape(line[1..]);
      assert line[1..][0] == line[1];
    }
  }

  /** The open comment after the first `i` lines: `commentMode` exactly when
      the last marker opens a comment, and then `current` holds the lines
      from it on; otherwise `current` is empty. */
  predicate Pending(lines: seq<string>, i: nat, st: ScanState)
    requires i <= |lines|
  {
    var m := LastMarker(lines, i);
    st.commentMode == (m.Some? && Opens(lines[m.value])) &&
    st.current == (if m.Some? && Opens(lines[m.value]) then Block(lines, m.value, i) else "")
  }

  lemma {:induction false} RunPending(lines: seq<string>, i: nat)
    requires i <= |lines|
    ensures Pending(lines, i, Run(lines, i))
  {
    if i > 0 {
      RunPending(lines, i - 1);
      PendingNext(lines, i - 1, Run(lines, i - 1));
    }
  }

  /** One round keeps `Pending`. */
  lemma PendingNext(lines: seq<string>, i: nat, st: ScanState)
    requires i < |lines| && Pending(lines, i, st)
    ensures Pending(lines, i + 1, ScanLine(lines, i, st))
  {
    var line := lines[i];
    if Closes(line) {
      ClosesShape(line);
    } else if !Opens(line) {
      assert LastMarker(lines, i + 1) == LastMarker(lines, i);
    }
  }

  /** A comment closed at line `c` is still stored at its line after every
      later round. */
  lemma {:induction false} RunStores(lines: seq<string>, i: nat, c: nat)
    requires c < i <= |lines| && Closes(lines[c]) && NextNonBlank(lines, c + 1) < |lines|
    ensures NextNonBlank(lines, c + 1) in Run(lines, i).comments
    ensures Run(lines, i).comments[NextNonBlank(lines, c + 1)] == BlockText(lines, c)
  {
    if i == c + 1 {
      StoredAtClose(lines, c);
    } else {
      RunStores(lines, i - 1, c);
      RoundKeeps(lines, i, c);
    }
  }

  /** The round of the closing line `c` stores its block. */
  lemma StoredAtClose(lines: seq<string>, c: nat)
    requires c < |lines| && Closes(lines[c]) && NextNonBlank(lines, c + 1) < |lines|
    ensures NextNonBlank(lines, c + 1) in Run(lines, c + 1).comments
    ensures Run(lines, c + 1).comments[NextNonBlank(lines, c + 1)] == BlockText(lines, c)
  {
    var k := NextNonBlank(lines, c + 1);
    ClosesShape(lines[c]);
    RunPending(lines, c);
    var st := Run(lines, c);
    assert Run(lines, c + 1).comments == st.comments[k := st.current + lines[c] + "\n"];
    assert Block(lines, c, c + 1) == "" + lines[c] + "\n";
  }

  /** A round after the closing line `c` keeps the entry stored for it: a
      later closing line is not blank, so it lies at or after that entry's
      line, and it stores further on. */
  lemma RoundKeeps(lines: seq<string>, i: nat, c: nat)
    requires c + 1 < i <= |lines| && Closes(lines[c]) && NextNonBlank(lines, c + 1) < |lines|
    ensures var k := NextNonBlank(lines, c + 1);
      k in Run(lines, i - 1).comments ==>
        k in Run(lines, i).comments && Run(lines, i).comments[k] == Run(lines, i - 1).comments[k]
  {
    var k := NextNonBlank(lines, c + 1);
    var line := lines[i - 1];
    if Closes(line) {
      ClosesShape(line);
      assert k <= i - 1;
      assert k < NextNonBlank(lines, i);
    }
  }

  /** Every comment closed at a line followed by a non-blank line is stored
      at that line, and its text is its lines from the opening line through
      the closing line, each ending with a newline. */
  lemma CommentsOfBlock(content: string, c: nat)
    requires c < |SplitLines(content)| && Closes(SplitLines(content)[c])
    requires NextNonBlank(SplitLines(content), c + 1) < |SplitLines(content)|
    ensures NextNonBlank(SplitLines(content), c + 1) in CommentsOf(content)
    ensures CommentsOf(content)[NextNonBlank(SplitLines(content), c + 1)] == BlockText(SplitLines(content), c)
  {
    var lines := SplitLines(content);
    ScanRun(lines, 0);
    RunStores(lines, |lines|, c);
  }
}
