/** The page-object locator (`PagesHandler`, gserver/src/pages.handler.ts): the
    pages named in the settings, each with the objects found in its file, and
    the `"page"."object"` notation inside feature lines, for definitions,
    completion and validation. */
module Pages {
  import opened Wrappers
  import opened Strings
  import opened Types

  datatype PageObject = PageObject(id: string, text: string, desc: string, def: Location)

  datatype Page = Page(id: string, text: string, desc: string, def: Location, objects: seq<PageObject>)

  /** A configured page: its name and the first file its glob finds, if any. */
  datatype PageSetting = PageSetting(name: string, file: Option<SourceFile>)

  /** Where the cursor stands in the `"page"."object"` notation: the page
      text, and the object text once the cursor is past `"page"."`. */
  datatype FeaturePosition = FeaturePosition(page: string, pageObject: Option<string>)

  datatype ItemKind = Property | Module

  /** A `CompletionItem` for a page (`Module`) or a page object (`Property`);
      `suggestsObjects` is the `triggerSuggest` command attached to it. */
  datatype PageItem = PageItem(
    itemLabel: string, kind: ItemKind, documentation: string, data: string,
    insertText: Option<string>, suggestsObjects: bool)

  // ------------------------------------------------------------------------
  // Lookup

  /** `p` is the first page with the text `page`. */
  predicate FirstPage(elements: seq<Page>, page: string, p: Page) {
    exists k :: 0 <= k < |elements| && elements[k] == p && forall j :: 0 <= j < k ==> elements[j].text != page
  }

  predicate FirstObject(objects: seq<PageObject>, name: string, o: PageObject) {
    exists k :: 0 <= k < |objects| && objects[k] == o && forall j :: 0 <= j < k ==> objects[j].text != name
  }

  /** `getPageElement`: the first page with the given text. */
  function PageElement(elements: seq<Page>, page: string): Option<Page> {
    if elements == [] then None
    else if elements[0].text == page then Some(elements[0])
    else PageElement(elements[1..], page)
  }

  /** The page found is the first page with the text; none is found exactly
      when no page has it. */
  lemma {:induction false} PageElementFirst(elements: seq<Page>, page: string)
    ensures var r := PageElement(elements, page);
      (r.None? <==> forall k :: 0 <= k < |elements| ==> elements[k].text != page) &&
      (r.Some? ==> r.value.text == page && FirstPage(elements, page, r.value))
  {
    if elements != [] && elements[0].text != page {
      PageElementFirst(elements[1..], page);
      assert forall k :: 1 <= k < |elements| ==> elements[k] == elements[1..][k - 1];
    }
  }

  /** The first object with the given text. */
  function ObjectNamed(objects: seq<PageObject>, name: string): (r: Option<PageObject>)
    ensures r.None? <==> forall k :: 0 <= k < |objects| ==> objects[k].text != name
    ensures r.Some? ==> r.value.text == name && FirstObject(objects, name, r.value)
  {
    if objects == [] then None
    else if objects[0].text == name then Some(objects[0])
    else ObjectNamed(objects[1..], name)
  }

  /** `getPageObjectElement`: the object of the first page with that text. */
  function PageObjectElement(elements: seq<Page>, page: string, pageObject: string): (r: Option<PageObject>)
    ensures r.Some? <==> PageElement(elements, page).Some? && ObjectNamed(PageElement(elements, page).value.objects, pageObject).Some?
    ensures r.Some? ==> r.value.text == pageObject && r.value in PageElement(elements, page).value.objects
  {
    match PageElement(elements, page)
    case None => None
    case Some(p) => ObjectNamed(p.objects, pageObject)
  }

  // ------------------------------------------------------------------------
  // Page objects of a page file (`getPageObjects`)

  function ObjectAt(host: Host, path: string, lines: seq<string>, i: nat, name: string): PageObject
    requires i < |lines|
  {
    PageObject("pageObject" + host.md5(name), name, lines[i], Location(host.osPath(path), i, 0))
  }

  /** The objects found in `lines`: each matched name once, at the first line
      that matches it, in line order. */
  function ObjectsOf(host: Host, path: string, lines: seq<string>): seq<PageObject>
  {
    if lines == [] then []
    else
      var prev := ObjectsOf(host, path, lines[..|lines| - 1]);
      var i := |lines| - 1;
      match host.pageObjectName(lines[i])
      case None => prev
      case Some(name) => if ObjectNamed(prev, name).Some? then prev else prev + [ObjectAt(host, path, lines, i, name)]
  }

  /** `getPageObjects`. */
  method PageObjects(host: Host, text: string, path: string) returns (res: seq<PageObject>)
    ensures res == ObjectsOf(host, path, SplitLines(text))
  {
    var textArr := SplitLines(text);
    res := [];
    var i := 0;
    while i < |textArr|
      invariant 0 <= i <= |textArr|
      invariant res == ObjectsOf(host, path, textArr[..i])
    {
      assert textArr[..i + 1][..i] == textArr[..i];
      var poMatch := host.pageObjectName(textArr[i]);
      if poMatch.Some? {
        var name := poMatch.value;
        if ObjectNamed(res, name).None? {
          res := res + [PageObject("pageObject" + host.md5(name), name, textArr[i], Location(host.osPath(path), i, 0))];
        }
      }
      i := i + 1;
    }
    assert textArr[..|textArr|] == textArr;
  }

  predicate DistinctTexts(objects: seq<PageObject>) {
    forall a, b :: 0 <= a < b < |objects| ==> objects[a].text != objects[b].text
  }

  /** No two objects share a name. */
  lemma {:induction false} ObjectsDistinct(host: Host, path: string, lines: seq<string>)
    ensures DistinctTexts(ObjectsOf(host, path, lines))
    decreases |lines|
  {
    if lines != [] {
      var init := lines[..|lines| - 1];
      var prev := ObjectsOf(host, path, init);
      var r := ObjectsOf(host, path, lines);
      ObjectsDistinct(host, path, init);
      var i := |lines| - 1;
      var found := host.pageObjectName(lines[i]);
      if found.Some? && ObjectNamed(prev, found.value).None? {
        var o := ObjectAt(host, path, lines, i, found.value);
        assert r == prev + [o];
        assert forall k :: 0 <= k < |prev| ==> prev[k].text != o.text;
      } else {
        assert r == prev;
      }
    }
  }

  /** Every line that names an object has that name among the objects. */
  lemma {:induction false} ObjectsComplete(host: Host, path: string, lines: seq<string>)
    ensures forall j :: 0 <= j < |lines| && host.pageObjectName(lines[j]).Some? ==>
      ObjectNamed(ObjectsOf(host, path, lines), host.pageObjectName(lines[j]).value).Some?
    decreases |lines|
  {
    if lines != [] {
      var init := lines[..|lines| - 1];
      var prev := ObjectsOf(host, path, init);
      var r := ObjectsOf(host, path, lines);
      ObjectsComplete(host, path, init);
      assert forall k :: 0 <= k < |prev| ==> r[k] == prev[k];
      forall j | 0 <= j < |lines| && host.pageObjectName(lines[j]).Some?
        ensures ObjectNamed(r, host.pageObjectName(lines[j]).value).Some?
      {
        var name := host.pageObjectName(lines[j]).value;
        if j < |lines| - 1 {
          assert init[j] == lines[j];
          var o := ObjectNamed(prev, name).value;
          assert FirstObject(prev, name, o);
          var k :| 0 <= k < |prev| && prev[k] == o;
          assert r[k].text == name;
        } else if r != prev {
          assert r[|prev|].text == name;
        }
      }
    }
  }

  /** The object `o` is the one `getPageObjects` makes for its name at its
      first matching line. */
  predicate FirstFound(host: Host, path: string, lines: seq<string>, o: PageObject) {
    o.def.line < |lines| &&
    host.pageObjectName(lines[o.def.line]) == Some(o.text) &&
    o == ObjectAt(host, path, lines, o.def.line, o.text) &&
    forall j :: 0 <= j < o.def.line ==> host.pageObjectName(lines[j]) != Some(o.text)
  }

  /** Every object sits at the first line naming it, with the id
      `'pageObject' + md5(name)`, that line as description and the position
      (line, 0). */
  lemma {:induction false} ObjectsAtFirstLine(host: Host, path: string, lines: seq<string>)
    ensures forall o :: o in ObjectsOf(host, path, lines) ==> FirstFound(host, path, lines, o)
    decreases |lines|
  {
    if lines != [] {
      var init := lines[..|lines| - 1];
      var prev := ObjectsOf(host, path, init);
      ObjectsAtFirstLine(host, path, init);
      ObjectsComplete(host, path, init);
      forall o | o in prev ensures FirstFound(host, path, lines, o) {
        assert FirstFound(host, path, init, o);
        assert forall j :: 0 <= j <= o.def.line ==> init[j] == lines[j];
      }
      var i := |lines| - 1;
      var found := host.pageObjectName(lines[i]);
      if found.Some? && ObjectNamed(prev, found.value).None? {
        var o := ObjectAt(host, path, lines, i, found.value);
        forall j | 0 <= j < i ensures host.pageObjectName(lines[j]) != Some(o.text) {
          assert init[j] == lines[j];
        }
        assert FirstFound(host, path, lines, o);
      }
    }
  }

  // ------------------------------------------------------------------------
  // Pages (`getPage`, `populate`)

  /** `lines.slice(0, n)`. */
  function Head<T>(lines: seq<T>, n: nat): (r: seq<T>)
    ensures |r| <= n && |r| <= |lines| && r == lines[..|r|]
    ensures |lines| >= n ==> |r| == n
  {
    if n <= |lines| then lines[..n] else lines
  }

  /** `getPage` for a name whose glob found `file` first: the first ten lines
      of the comment-free text as description, the file start as definition,
      and the file's objects. */
  function PageOf(host: Host, name: string, file: Option<SourceFile>): (r: Option<Page>)
    ensures r.None? <==> file.None?
    ensures r.Some? ==> (r.value.text == name && r.value.id == "page" + host.md5(name) &&
      r.value.objects == ObjectsOf(host, file.value.path, SplitLines(host.clearComments(file.value.content))))
  {
    match file
    case None => None
    case Some(f) =>
      var text := host.clearComments(f.content);
      var lines := SplitLines(text);
      Some(Page("page" + host.md5(name), name, Join(Head(lines, 10), "\r\n"),
        Location(host.osPath(f.path), 0, 0), ObjectsOf(host, f.path, lines)))
  }

  /** The pages of the settings, in order, leaving out those whose glob found
      nothing. */
  function PagesOf(host: Host, settings: seq<PageSetting>): (r: seq<Page>)
    ensures |r| <= |settings|
  {
    if settings == [] then []
    else
      var last := settings[|settings| - 1];
      PagesOf(host, settings[..|settings| - 1]) + if last.file.Some? then [PageOf(host, last.name, last.file).value] else []
  }

  /** Every page comes from a configured name whose glob found a file. */
  lemma {:induction false} PagesOfSound(host: Host, settings: seq<PageSetting>)
    ensures forall p :: p in PagesOf(host, settings) ==>
      exists k :: 0 <= k < |settings| && settings[k].file.Some? && PageOf(host, settings[k].name, settings[k].file) == Some(p)
  {
    if settings != [] {
      var init := settings[..|settings| - 1];
      PagesOfSound(host, init);
      assert forall k :: 0 <= k < |init| ==> init[k] == settings[k];
    }
  }

  /** Every configured name whose glob found a file has its page. */
  lemma {:induction false} PagesOfComplete(host: Host, settings: seq<PageSetting>)
    ensures forall k :: 0 <= k < |settings| && settings[k].file.Some? ==>
      PageOf(host, settings[k].name, settings[k].file).value in PagesOf(host, settings)
  {
    if settings != [] {
      var init := settings[..|settings| - 1];
      var last := settings[|settings| - 1];
      PagesOfComplete(host, init);
      var prev := PagesOf(host, init);
      var extra := if last.file.Some? then [PageOf(host, last.name, last.file).value] else [];
      assert PagesOf(host, settings) == prev + extra;
      forall k | 0 <= k < |settings| && settings[k].file.Some?
        ensures PageOf(host, settings[k].name, settings[k].file).value in prev + extra
      {
        if k < |init| {
          assert init[k] == settings[k];
          InFirstPart(prev, extra, PageOf(host, init[k].name, init[k].file).value);
        } else {
          assert settings[k] == last;
        }
      }
    }
  }

  lemma InFirstPart<T>(a: seq<T>, b: seq<T>, x: T)
    requires x in a
    ensures x in a + b
  {
  }

  // ------------------------------------------------------------------------
  // Cursor position (`getFeaturePosition`)

  /** The last `"` before index `n`. */
  function LastQuote(s: string, n: nat): (r: Option<nat>)
    requires n <= |s|
    ensures r.Some? ==> r.value < n && s[r.value] == '"' && forall j :: r.value < j < n ==> s[j] != '"'
    ensures r.None? ==> forall j :: 0 <= j < n ==> s[j] != '"'
  {
    if n == 0 then None
    else if s[n - 1] == '"' then Some(n - 1)
    else LastQuote(s, n - 1)
  }

  // `s.replace(/".*/, '')`: the first `"` and the run of non-terminators
  // after it are removed.
  function CutQuote(s: string): (r: string)
    ensures IndexOf(s, "\"", 0).None? ==> r == s
    ensures IndexOf(s, "\"", 0).Some? ==> r == s[..IndexOf(s, "\"", 0).value] + s[IndexOf(s, "\"", 0).value + 1 + DotRun(s, IndexOf(s, "\"", 0).value + 1)..]
  {
    match IndexOf(s, "\"", 0)
    case None => s
    case Some(q) => s[..q] + s[q + 1 + DotRun(s, q + 1)..]
  }

  /** The text from the cursor up to the next `"`: `line.slice(char)` cut at its first quote. */
  function EndLine(line: string, character: nat): string {
    CutQuote(line[|Prefix(line, character)|..])
  }

  /** `getFeaturePosition`. With an odd number of `"` before the cursor, the
      expression `"(?:([^"]*)"\.")?([^"]*)$` matches at the third-last quote
      when the last three read `"…"."`, and at the last quote otherwise. */
  function FeaturePositionOf(line: string, character: nat): (r: Option<FeaturePosition>)
    ensures r.None? <==> CountChar(Prefix(line, character), '"') % 2 == 0
  {
    PositionIn(Prefix(line, character), EndLine(line, character))
  }

  /** The position for the text before the cursor and the text after it up
      to the next quote. */
  function PositionIn(startLine: string, endLine: string): (r: Option<FeaturePosition>)
    ensures r.None? <==> CountChar(startLine, '"') % 2 == 0
  {
    if CountChar(startLine, '"') % 2 == 0 then None
    else
      match LastQuote(startLine, |startLine|)
      case None => NoQuoteCount(startLine); None
      case Some(r) =>
        var typedObject := startLine[r + 1..];
        if r >= 2 && startLine[r - 1] == '.' && startLine[r - 2] == '"' && LastQuote(startLine, r - 2).Some? then
          var p := LastQuote(startLine, r - 2).value;
          var page := startLine[p + 1..r - 2];
          if page != "" then Some(FeaturePosition(page, Some(typedObject + endLine)))
          else Some(FeaturePosition(typedObject + endLine, None))
        else Some(FeaturePosition(typedObject + endLine, None))
  }

  lemma {:induction false} NoQuoteCount(s: string)
    requires forall j :: 0 <= j < |s| ==> s[j] != '"'
    ensures CountChar(s, '"') == 0
  {
    if s != [] {
      NoQuoteCount(s[1..]);
    }
  }

  lemma {:induction false} CountCharAppend(a: string, b: string, c: char)
    ensures CountChar(a + b, c) == CountChar(a, c) + CountChar(b, c)
  {
    if a == [] {
      assert a + b == b;
    } else {
      assert (a + b)[0] == a[0];
      assert (a + b)[1..] == a[1..] + b;
      CountCharAppend(a[1..], b, c);
    }
  }

  predicate QuoteFree(s: string) { forall j :: 0 <= j < |s| ==> s[j] != '"' }

  /** After an even number of quotes, `"page"."typed` (page not empty, no
      quotes inside) puts the cursor on object `typed` of `page`; the text up
      to the next quote after the cursor completes the object. */
  lemma PositionOfObject(line: string, character: nat, before: string, page: string, typed: string)
    requires Prefix(line, character) == before + "\"" + page + "\".\"" + typed
    requires CountChar(before, '"') % 2 == 0 && QuoteFree(page) && QuoteFree(typed) && page != ""
    ensures FeaturePositionOf(line, character) == Some(FeaturePosition(page, Some(typed + EndLine(line, character))))
  {
    ObjectPosition(Prefix(line, character), EndLine(line, character), before, page, typed);
  }

  lemma ObjectPosition(s: string, endLine: string, before: string, page: string, typed: string)
    requires s == before + "\"" + page + "\".\"" + typed
    requires CountChar(before, '"') % 2 == 0 && QuoteFree(page) && QuoteFree(typed) && page != ""
    ensures PositionIn(s, endLine) == Some(FeaturePosition(page, Some(typed + endLine)))
  {
    var p := |before|;
    var r := p + |page| + 3;
    QuoteCounts(before, page, typed);
    ObjectShape(before, page, typed);
    PositionAtObject(s, endLine, p, r);
  }

  /** With an odd number of quotes, a last quote at `r` preceded by `".` and
      an earlier quote at `p` name the page between `p` and `r - 2` and the
      object typed after `r`. */
  lemma PositionAtObject(s: string, endLine: string, p: nat, r: nat)
    requires CountChar(s, '"') % 2 == 1
    requires p + 1 < r - 2 && r < |s| && s[r - 1] == '.' && s[r - 2] == '"'
    requires s[r] == '"' && forall j :: r < j < |s| ==> s[j] != '"'
    requires s[p] == '"' && forall j :: p < j < r - 2 ==> s[j] != '"'
    ensures PositionIn(s, endLine) == Some(FeaturePosition(s[p + 1..r - 2], Some(s[r + 1..] + endLine)))
  {
    LastQuoteAfter(s, r, |s|);
    LastQuoteAfter(s, p, r - 2);
    assert LastQuote(s, |s|) == Some(r);
  }

  /** `""."typed`: the page group is empty, so the truthiness test `if (page)`
      fails and the whole typed text after the last quote is the page. */
  lemma PositionOfEmptyPage(line: string, character: nat, before: string, typed: string)
    requires Prefix(line, character) == before + "\"\".\"" + typed
    requires CountChar(before, '"') % 2 == 0 && QuoteFree(typed)
    ensures FeaturePositionOf(line, character) == Some(FeaturePosition(typed + EndLine(line, character), None))
  {
    var s := Prefix(line, character);
    assert s == before + "\"" + "" + "\".\"" + typed;
    QuoteCounts(before, "", typed);
    ObjectShape(before, "", typed);
    PositionAtEmptyPage(s, EndLine(line, character), |before|, |before| + 3);
  }

  lemma PositionAtEmptyPage(s: string, endLine: string, p: nat, r: nat)
    requires CountChar(s, '"') % 2 == 1
    requires p + 3 == r < |s| && s[p] == '"' && s[r - 2] == '"' && s[r - 1] == '.'
    requires s[r] == '"' && forall j :: r < j < |s| ==> s[j] != '"'
    ensures PositionIn(s, endLine) == Some(FeaturePosition(s[r + 1..] + endLine, None))
  {
    LastQuoteAfter(s, r, |s|);
    LastQuoteAfter(s, p, r - 2);
    assert s[p + 1..r - 2] == [];
  }

  /** Where the quotes of `before"page"."typed` are. */
  lemma ObjectShape(before: string, page: string, typed: string)
    requires QuoteFree(page) && QuoteFree(typed)
    ensures var s := before + "\"" + page + "\".\"" + typed;
      var p := |before|;
      var r := p + |page| + 3;
      r < |s| && s[r] == '"' && s[r + 1..] == typed && (forall j :: r < j < |s| ==> s[j] != '"') &&
      s[r - 1] == '.' && s[r - 2] == '"' && s[p] == '"' && s[p + 1..r - 2] == page &&
      (forall j :: p < j < r - 2 ==> s[j] != '"')
  {
    var s := before + "\"" + page + "\".\"" + typed;
    var p := |before|;
    var r := p + |page| + 3;
    assert s == before + ("\"" + page + "\".\"") + typed;
    assert forall j :: r < j < |s| ==> s[j] == typed[j - r - 1];
    assert forall j :: p < j < r - 2 ==> s[j] == page[j - p - 1];
  }

  /** After an even number of quotes, `"typed` (no quotes inside) not
      preceded by `".` puts the cursor on page `typed`. */
  lemma PositionOfPage(line: string, character: nat, before: string, typed: string)
    requires Prefix(line, character) == before + "\"" + typed
    requires CountChar(before, '"') % 2 == 0 && QuoteFree(typed)
    requires !EndsWith(before, "\".")
    ensures FeaturePositionOf(line, character) == Some(FeaturePosition(typed + EndLine(line, character), None))
  {
    PagePosition(Prefix(line, character), EndLine(line, character), before, typed);
  }

  lemma PagePosition(s: string, endLine: string, before: string, typed: string)
    requires s == before + "\"" + typed
    requires CountChar(before, '"') % 2 == 0 && QuoteFree(typed)
    requires !EndsWith(before, "\".")
    ensures PositionIn(s, endLine) == Some(FeaturePosition(typed + endLine, None))
  {
    PageShape(before, typed);
    LastQuoteAfter(s, |before|, |s|);
  }

  /** Where the last quote of `before"typed` is, and that no `".` precedes it. */
  lemma PageShape(before: string, typed: string)
    requires CountChar(before, '"') % 2 == 0 && QuoteFree(typed) && !EndsWith(before, "\".")
    ensures var s := before + "\"" + typed;
      var r := |before|;
      CountChar(s, '"') % 2 == 1 &&
      s[r] == '"' && s[r + 1..] == typed && (forall j :: r < j < |s| ==> s[j] != '"') &&
      !(r >= 2 && s[r - 1] == '.' && s[r - 2] == '"')
  {
    var s := before + "\"" + typed;
    var r := |before|;
    assert s == before + ("\"" + typed);
    CountCharAppend(before, "\"" + typed, '"');
    CountCharAppend("\"", typed, '"');
    NoQuoteCount(typed);
    assert CountChar("\"", '"') == 1 by { assert "\""[1..] == ""; }
    assert forall j :: r < j < |s| ==> s[j] == typed[j - r - 1];
    if r >= 2 {
      assert s[r - 2] == before[r - 2] && s[r - 1] == before[r - 1];
      assert before[|before| - 2..] == [before[r - 2], before[r - 1]];
    }
  }

  lemma {:induction false} LastQuoteAfter(s: string, q: nat, n: nat)
    requires q < n <= |s| && s[q] == '"' && forall j :: q < j < n ==> s[j] != '"'
    ensures LastQuote(s, n) == Some(q)
    decreases n
  {
    if n - 1 != q {
      LastQuoteAfter(s, q, n - 1);
    }
  }

  lemma QuoteCounts(before: string, page: string, typed: string)
    requires QuoteFree(page) && QuoteFree(typed)
    ensures CountChar(before + "\"" + page + "\".\"" + typed, '"') == CountChar(before, '"') + 3
  {
    NoQuoteCount(page);
    NoQuoteCount(typed);
    CountCharAppend(before + "\"" + page + "\".\"", typed, '"');
    CountCharAppend(before + "\"" + page, "\".\"", '"');
    CountCharAppend(before + "\"", page, '"');
    CountCharAppend(before, "\"", '"');
    assert CountChar("\".\"", '"') == 2 by {
      assert "\".\""[1..] == ".\"";
      assert ".\""[1..] == "\"";
      assert "\""[1..] == "";
    }
  }

  // ------------------------------------------------------------------------
  // Validation (`validate`)

  /** `line.search(/"[^"]*"."[^"]*"/)` finds a match starting at `p`: the
      next quote after `p`, one character that is not a line terminator, a
      quote, and a later quote again. */
  predicate PairAt(s: string, p: nat) {
    p < |s| && s[p] == '"' &&
    match IndexOf(s, "\"", p + 1)
    case None => false
    case Some(q) => q + 2 < |s| && !IsLineTerminator(s[q + 1]) && s[q + 2] == '"' && IndexOf(s, "\"", q + 3).Some?
  }

  predicate HasPagePair(s: string) {
    exists p: nat :: p < |s| && PairAt(s, p)
  }

  /** A line containing `"page"."object"` passes the guard. */
  lemma PairOfQuoted(s: string, p: nat, page: string, pageObject: string)
    requires QuoteFree(page) && QuoteFree(pageObject)
    requires p + |page| + |pageObject| + 5 <= |s| && s[p..p + |page| + |pageObject| + 5] == "\"" + page + "\".\"" + pageObject + "\""
    ensures HasPagePair(s)
  {
    QuotedChars(s, p, page, pageObject);
    QuotedPairAt(s, p, p + |page| + 1, p + |page| + |pageObject| + 4);
  }

  /** The quotes and the dot of `"page"."object"` found at `p`. */
  lemma QuotedChars(s: string, p: nat, page: string, pageObject: string)
    requires QuoteFree(page)
    requires p + |page| + |pageObject| + 5 <= |s| && s[p..p + |page| + |pageObject| + 5] == "\"" + page + "\".\"" + pageObject + "\""
    ensures var q := p + |page| + 1;
      s[p] == '"' && s[q] == '"' && s[q + 1] == '.' && s[q + 2] == '"' && s[q + |pageObject| + 3] == '"' &&
      forall j :: p < j < q ==> s[j] != '"'
  {
    var x := "\"" + page + "\".\"" + pageObject + "\"";
    var q := p + |page| + 1;
    assert forall k :: 0 <= k < |x| ==> s[p + k] == x[k];
    assert x[0] == '"' && x[|page| + 1] == '"' && x[|page| + 2] == '.' && x[|page| + 3] == '"';
    assert x[|x| - 1] == '"';
    forall j | p < j < q
      ensures s[j] != '"'
    {
      assert s[p + (j - p)] == x[j - p] == page[j - p - 1];
    }
  }

  /** A quote, a quote-free run, a quote, one character, a quote and a later
      quote satisfy the guard at the first quote. */
  lemma QuotedPairAt(s: string, p: nat, q: nat, e: nat)
    requires p < q && q + 3 <= e < |s|
    requires s[p] == '"' && s[q] == '"' && s[q + 1] == '.' && s[q + 2] == '"' && s[e] == '"'
    requires forall j :: p < j < q ==> s[j] != '"'
    ensures PairAt(s, p)
  {
    IndexOfChar(s, '"', p + 1, q);
    assert IndexOf(s, "\"", p + 1) == Some(q);
    CharFound(s, '"', q + 3, e);
    PairAtOf(s, p, q);
  }

  lemma PairAtOf(s: string, p: nat, q: nat)
    requires p < |s| && s[p] == '"' && IndexOf(s, "\"", p + 1) == Some(q)
    requires q + 2 < |s| && !IsLineTerminator(s[q + 1]) && s[q + 2] == '"'
    requires IndexOf(s, "\"", q + 3).Some?
    ensures PairAt(s, p)
  {
  }

  /** A character at or after `from` is found by `indexOf`. */
  lemma CharFound(s: string, c: char, from: nat, e: nat)
    requires from <= e < |s| && s[e] == c
    ensures IndexOf(s, [c], from).Some?
  {
    assert OccursAt(s, [c], e) by { assert s[e..e + 1] == [s[e]]; }
  }

  /** `lineArr.slice(0, i).reduce((a, b) => a + b.length + 1, 0)`: where the
      `i`-th piece of a split on `"` starts in the line. */
  function Offset(pieces: seq<string>, i: nat): nat
    requires i <= |pieces|
  {
    if i == 0 then 0 else Offset(pieces, i - 1) + |pieces[i - 1]| + 1
  }

  function PageMessage(page: string): string {
    "Was unable to find page \"" + page + "\""
  }

  function ObjectMessage(page: string, pageObject: string): string {
    "Was unable to find page object \"" + pageObject + "\" for page \"" + page + "\""
  }

  /** The warning for piece `i` when it is `.` and has a page piece before
      it: a missing page over the page text, or a missing object of a found
      page over the object text. A `.` with nothing before it, or with a found
      page and nothing after it, gives none. */
  function SegmentDiagnostic(elements: seq<Page>, pieces: seq<string>, i: nat, lineNum: nat): Option<Diagnostic>
    requires i < |pieces|
  {
    if pieces[i] != "." || i == 0 then None
    else
      var curr := Offset(pieces, i);
      var page := pieces[i - 1];
      if PageElement(elements, page).None? then
        Some(Diagnostic(lineNum, curr - |page| - 1, curr - 1, PageMessage(page), DiagnosticSource))
      else if i + 1 == |pieces| then None
      else
        var pageObject := pieces[i + 1];
        if PageObjectElement(elements, page, pageObject).None? then
          Some(Diagnostic(lineNum, curr + 2, curr + 3 + |pageObject| - 1, ObjectMessage(page, pageObject), DiagnosticSource))
        else None
  }

  /** The warnings of the first `n` pieces, in order. */
  function Diagnostics(elements: seq<Page>, pieces: seq<string>, n: nat, lineNum: nat): seq<Diagnostic>
    requires n <= |pieces|
  {
    if n == 0 then []
    else
      Diagnostics(elements, pieces, n - 1, lineNum) +
      match SegmentDiagnostic(elements, pieces, n - 1, lineNum)
      case None => []
      case Some(d) => [d]
  }

  /** One step of `Diagnostics`: the warning of the next piece, if any, is
      appended. */
  lemma DiagnosticsNext(elements: seq<Page>, pieces: seq<string>, i: nat, lineNum: nat)
    requires i < |pieces|
    ensures var seg := SegmentDiagnostic(elements, pieces, i, lineNum);
      Diagnostics(elements, pieces, i + 1, lineNum) ==
        Diagnostics(elements, pieces, i, lineNum) + (if seg.Some? then [seg.value] else [])
  {
  }

  /** `validate` with the missing neighbours of a `.` piece skipped. */
  function ValidateSpec(elements: seq<Page>, line: string, lineNum: nat): seq<Diagnostic> {
    if HasPagePair(line) then
      var pieces := Split(line, "\"");
      Diagnostics(elements, pieces, |pieces|, lineNum)
    else []
  }

  /** Each piece gives at most one warning. */
  lemma {:induction false} DiagnosticsCount(elements: seq<Page>, pieces: seq<string>, n: nat, lineNum: nat)
    requires n <= |pieces|
    ensures |Diagnostics(elements, pieces, n, lineNum)| <= n
  {
    if n > 0 {
      DiagnosticsCount(elements, pieces, n - 1, lineNum);
    }
  }

  /** Every warning comes from a `.` piece that has a piece before it. */
  lemma DiagnosticsSound(elements: seq<Page>, pieces: seq<string>, n: nat, lineNum: nat)
    requires n <= |pieces|
    ensures forall d :: d in Diagnostics(elements, pieces, n, lineNum) ==>
      exists i :: 0 < i < n && pieces[i] == "." && SegmentDiagnostic(elements, pieces, i, lineNum) == Some(d)
  {
    forall d | d in Diagnostics(elements, pieces, n, lineNum)
      ensures exists i :: 0 < i < n && pieces[i] == "." && SegmentDiagnostic(elements, pieces, i, lineNum) == Some(d)
    {
      DiagnosticOrigin(elements, pieces, n, lineNum, d);
    }
  }

  /** The piece a reported warning comes from. */
  lemma {:induction false} DiagnosticOrigin(elements: seq<Page>, pieces: seq<string>, n: nat, lineNum: nat, d: Diagnostic)
    requires n <= |pieces| && d in Diagnostics(elements, pieces, n, lineNum)
    ensures exists i :: 0 < i < n && pieces[i] == "." && SegmentDiagnostic(elements, pieces, i, lineNum) == Some(d)
  {
    var prev := Diagnostics(elements, pieces, n - 1, lineNum);
    var seg := SegmentDiagnostic(elements, pieces, n - 1, lineNum);
    assert Diagnostics(elements, pieces, n, lineNum) == prev + (if seg.Some? then [seg.value] else []);
    if d in prev {
      DiagnosticOrigin(elements, pieces, n - 1, lineNum, d);
    } else {
      assert seg == Some(d);
    }
  }

  /** Every piece's warning is reported. */
  lemma DiagnosticsComplete(elements: seq<Page>, pieces: seq<string>, n: nat, lineNum: nat)
    requires n <= |pieces|
    ensures forall i :: 0 <= i < n && SegmentDiagnostic(elements, pieces, i, lineNum).Some? ==>
      SegmentDiagnostic(elements, pieces, i, lineNum).value in Diagnostics(elements, pieces, n, lineNum)
  {
    forall i | 0 <= i < n && SegmentDiagnostic(elements, pieces, i, lineNum).Some?
      ensures SegmentDiagnostic(elements, pieces, i, lineNum).value in Diagnostics(elements, pieces, n, lineNum)
    {
      DiagnosticReported(elements, pieces, n, lineNum, i, SegmentDiagnostic(elements, pieces, i, lineNum).value);
    }
  }

  /** The warning of piece `i` is among the warnings of any longer prefix. */
  lemma {:induction false} DiagnosticReported(elements: seq<Page>, pieces: seq<string>, n: nat, lineNum: nat,
                                              i: nat, d: Diagnostic)
    requires i < n <= |pieces| && SegmentDiagnostic(elements, pieces, i, lineNum) == Some(d)
    ensures d in Diagnostics(elements, pieces, n, lineNum)
  {
    var prev := Diagnostics(elements, pieces, n - 1, lineNum);
    var seg := SegmentDiagnostic(elements, pieces, n - 1, lineNum);
    assert Diagnostics(elements, pieces, n, lineNum) == prev + (if seg.Some? then [seg.value] else []);
    if i < n - 1 {
      DiagnosticReported(elements, pieces, n - 1, lineNum, i, d);
    }
  }

  /** The first `k` pieces, joined, end one character before piece `k` starts. */
  lemma {:induction false} JoinLength(pieces: seq<string>, c: char, k: nat)
    requires 1 <= k <= |pieces|
    ensures |Join(pieces[..k], [c])| + 1 == Offset(pieces, k)
  {
    if k == 1 {
      assert pieces[..1] == [pieces[0]];
    } else {
      assert pieces[..k] == pieces[..k - 1] + [pieces[k - 1]];
      JoinAppend(pieces[..k - 1], [pieces[k - 1]], [c]);
      JoinLength(pieces, c, k - 1);
    }
  }

  /** The joining of the pieces from `i` on starts with piece `i`, then the
      separator if more pieces follow. */
  lemma JoinFrom(pieces: seq<string>, c: char, i: nat)
    requires i < |pieces|
    ensures var t := Join(pieces[i..], [c]);
      |pieces[i]| <= |t| && t[..|pieces[i]|] == pieces[i] &&
      (i + 1 < |pieces| ==> |pieces[i]| < |t| && t[|pieces[i]|] == c)
  {
    var rest := pieces[i..];
    assert rest[0] == pieces[i];
    if i + 1 < |pieces| {
      assert |rest| > 1;
      assert Join(rest, [c]) == pieces[i] + [c] + Join(rest[1..], [c]);
    }
  }

  /** Where piece `i` of a split on a one-character separator sits in the
      joined text, and that the separator surrounds it. */
  lemma JoinOffset(pieces: seq<string>, c: char, i: nat)
    requires i < |pieces|
    ensures Offset(pieces, i) + |pieces[i]| <= |Join(pieces, [c])|
    ensures Join(pieces, [c])[Offset(pieces, i)..Offset(pieces, i) + |pieces[i]|] == pieces[i]
    ensures i > 0 ==> Join(pieces, [c])[Offset(pieces, i) - 1] == c
    ensures i + 1 < |pieces| ==> Offset(pieces, i) + |pieces[i]| < |Join(pieces, [c])|
    ensures i + 1 < |pieces| ==> Join(pieces, [c])[Offset(pieces, i) + |pieces[i]|] == c
  {
    var joined := Join(pieces, [c]);
    var t := Join(pieces[i..], [c]);
    JoinFrom(pieces, c, i);
    if i == 0 {
      assert pieces[0..] == pieces;
    } else {
      assert pieces == pieces[..i] + pieces[i..];
      JoinAppend(pieces[..i], pieces[i..], [c]);
      JoinLength(pieces, c, i);
      var o := Offset(pieces, i);
      assert joined == Join(pieces[..i], [c]) + [c] + t;
      assert joined[o - 1] == c;
      assert forall j :: 0 <= j < |t| ==> joined[o + j] == t[j];
    }
  }

  /** A piece of `line` split on `"` is exactly the line's text at its offset. */
  lemma PieceAt(line: string, pieces: seq<string>, i: nat)
    requires pieces == Split(line, "\"") && i < |pieces|
    ensures var o := Offset(pieces, i);
      o + |pieces[i]| <= |line| && line[o..o + |pieces[i]|] == pieces[i] &&
      (i > 0 ==> line[o - 1] == '"') &&
      (i + 1 < |pieces| ==> o + |pieces[i]| < |line| && line[o + |pieces[i]|] == '"')
  {
    JoinSplit(line, "\"");
    PieceOfJoin(pieces, line, i);
  }

  lemma PieceOfJoin(pieces: seq<string>, line: string, i: nat)
    requires i < |pieces| && Join(pieces, "\"") == line
    ensures var o := Offset(pieces, i);
      o + |pieces[i]| <= |line| && line[o..o + |pieces[i]|] == pieces[i] &&
      (i > 0 ==> line[o - 1] == '"') &&
      (i + 1 < |pieces| ==> o + |pieces[i]| < |line| && line[o + |pieces[i]|] == '"')
  {
    JoinOffset(pieces, '"', i);
  }

  /** A missing page is reported over exactly the page text, which is
      followed by the quote before the `.`; a missing object over exactly the
      object text, which follows the quote after the `.`. */
  lemma SegmentRange(elements: seq<Page>, line: string, pieces: seq<string>, i: nat, lineNum: nat)
    requires pieces == Split(line, "\"") && i < |pieces|
    requires SegmentDiagnostic(elements, pieces, i, lineNum).Some?
    ensures var d := SegmentDiagnostic(elements, pieces, i, lineNum).value;
      0 < i && pieces[i] == "." && d.line == lineNum && d.source == DiagnosticSource &&
      d.startCharacter <= d.endCharacter <= |line| &&
      line[d.startCharacter..d.endCharacter] == (if PageElement(elements, pieces[i - 1]).None? then pieces[i - 1] else pieces[i + 1]) &&
      (PageElement(elements, pieces[i - 1]).None? ==>
        d.endCharacter < |line| && line[d.endCharacter] == '"' && d.message == PageMessage(pieces[i - 1])) &&
      (PageElement(elements, pieces[i - 1]).Some? ==>
        0 < d.startCharacter && line[d.startCharacter - 1] == '"' && d.message == ObjectMessage(pieces[i - 1], pieces[i + 1]))
  {
    JoinSplit(line, "\"");
    SegmentRangeOfJoin(elements, line, pieces, i, lineNum);
  }

  lemma SegmentRangeOfJoin(elements: seq<Page>, line: string, pieces: seq<string>, i: nat, lineNum: nat)
    requires Join(pieces, "\"") == line && i < |pieces|
    requires SegmentDiagnostic(elements, pieces, i, lineNum).Some?
    ensures var d := SegmentDiagnostic(elements, pieces, i, lineNum).value;
      0 < i && pieces[i] == "." && d.line == lineNum && d.source == DiagnosticSource &&
      d.startCharacter <= d.endCharacter <= |line| &&
      line[d.startCharacter..d.endCharacter] == (if PageElement(elements, pieces[i - 1]).None? then pieces[i - 1] else pieces[i + 1]) &&
      (PageElement(elements, pieces[i - 1]).None? ==>
        d.endCharacter < |line| && line[d.endCharacter] == '"' && d.message == PageMessage(pieces[i - 1])) &&
      (PageElement(elements, pieces[i - 1]).Some? ==>
        0 < d.startCharacter && line[d.startCharacter - 1] == '"' && d.message == ObjectMessage(pieces[i - 1], pieces[i + 1]))
  {
    if PageElement(elements, pieces[i - 1]).None? {
      MissingPageRange(elements, line, pieces, i, lineNum);
    } else {
      MissingObjectRange(elements, line, pieces, i, lineNum);
    }
  }

  /** The warning for an unknown page spans the page's piece. */
  lemma MissingPageRange(elements: seq<Page>, line: string, pieces: seq<string>, i: nat, lineNum: nat)
    requires Join(pieces, "\"") == line && i < |pieces|
    requires SegmentDiagnostic(elements, pieces, i, lineNum).Some?
    requires 0 < i && PageElement(elements, pieces[i - 1]).None?
    ensures var d := SegmentDiagnostic(elements, pieces, i, lineNum).value;
      pieces[i] == "." && d.line == lineNum && d.source == DiagnosticSource &&
      d.startCharacter <= d.endCharacter < |line| && line[d.startCharacter..d.endCharacter] == pieces[i - 1] &&
      line[d.endCharacter] == '"' && d.message == PageMessage(pieces[i - 1])
  {
    var d := SegmentDiagnostic(elements, pieces, i, lineNum).value;
    var page := pieces[i - 1];
    assert Offset(pieces, i) == Offset(pieces, i - 1) + |page| + 1;
    PieceOfJoin(pieces, line, i - 1);
    assert d.startCharacter == Offset(pieces, i - 1) && d.endCharacter == Offset(pieces, i - 1) + |page|;
  }

  /** The warning for an unknown object of a known page spans the object's
      piece. */
  lemma MissingObjectRange(elements: seq<Page>, line: string, pieces: seq<string>, i: nat, lineNum: nat)
    requires Join(pieces, "\"") == line && i < |pieces|
    requires SegmentDiagnostic(elements, pieces, i, lineNum).Some?
    requires 0 < i && PageElement(elements, pieces[i - 1]).Some?
    ensures var d := SegmentDiagnostic(elements, pieces, i, lineNum).value;
      pieces[i] == "." && i + 1 < |pieces| && d.line == lineNum && d.source == DiagnosticSource &&
      0 < d.startCharacter <= d.endCharacter <= |line| && line[d.startCharacter..d.endCharacter] == pieces[i + 1] &&
      line[d.startCharacter - 1] == '"' && d.message == ObjectMessage(pieces[i - 1], pieces[i + 1])
  {
    var curr := Offset(pieces, i);
    var d := SegmentDiagnostic(elements, pieces, i, lineNum).value;
    PieceOfJoin(pieces, line, i + 1);
    assert Offset(pieces, i + 1) == curr + 2;
    assert d.startCharacter == curr + 2 && d.endCharacter == curr + 2 + |pieces[i + 1]|;
  }

  // The guard and the reduce as written: a `.` piece reads the pieces on
  // both sides, and a missing neighbour is `undefined`, whose `length` the
  // diagnostic then reads.

  const UndefinedLength := "TypeError: Cannot read properties of undefined (reading 'length')"

  function SegmentAsWritten(elements: seq<Page>, pieces: seq<string>, i: nat, lineNum: nat): Result<Option<Diagnostic>, string>
    requires i < |pieces|
  {
    if pieces[i] != "." then Success(None)
    else if i == 0 then Failure(UndefinedLength)
    else
      var curr := Offset(pieces, i);
      var page := pieces[i - 1];
      if PageElement(elements, page).None? then
        Success(Some(Diagnostic(lineNum, curr - |page| - 1, curr - 1, PageMessage(page), DiagnosticSource)))
      else if i + 1 == |pieces| then Failure(UndefinedLength)
      else
        var pageObject := pieces[i + 1];
        if PageObjectElement(elements, page, pageObject).None? then
          Success(Some(Diagnostic(lineNum, curr + 2, curr + 3 + |pageObject| - 1, ObjectMessage(page, pageObject), DiagnosticSource)))
        else Success(None)
  }

  function DiagnosticsAsWritten(elements: seq<Page>, pieces: seq<string>, n: nat, lineNum: nat): Result<seq<Diagnostic>, string>
    requires n <= |pieces|
  {
    if n == 0 then Success([])
    else
      match DiagnosticsAsWritten(elements, pieces, n - 1, lineNum)
      case Failure(e) => Failure(e)
      case Success(res) =>
        match SegmentAsWritten(elements, pieces, n - 1, lineNum)
        case Failure(e) => Failure(e)
        case Success(None) => Success(res)
        case Success(Some(d)) => Success(res + [d])
  }

  /** `validate` as written, throwing when a `.` piece opens the line, or
      closes it after a configured page. */
  function ValidateAsWritten(elements: seq<Page>, line: string, lineNum: nat): Result<seq<Diagnostic>, string> {
    if HasPagePair(line) then
      var pieces := Split(line, "\"");
      DiagnosticsAsWritten(elements, pieces, |pieces|, lineNum)
    else Success([])
  }

  /** A piece throws exactly when it is a `.` with no piece before it, or
      with a found page before it and no piece after it. */
  predicate Throws(elements: seq<Page>, pieces: seq<string>, i: nat)
    requires i < |pieces|
  {
    pieces[i] == "." && (i == 0 || (PageElement(elements, pieces[i - 1]).Some? && i + 1 == |pieces|))
  }

  /** One piece throws exactly when `Throws` says so, and otherwise gives its
      warning. */
  lemma SegmentAgrees(elements: seq<Page>, pieces: seq<string>, i: nat, lineNum: nat)
    requires i < |pieces|
    ensures SegmentAsWritten(elements, pieces, i, lineNum).Failure? <==> Throws(elements, pieces, i)
    ensures SegmentAsWritten(elements, pieces, i, lineNum).Success? ==>
      SegmentAsWritten(elements, pieces, i, lineNum).value == SegmentDiagnostic(elements, pieces, i, lineNum)
  {
  }

  /** Where `validate` does not throw, it gives the warnings of `ValidateSpec`;
      it throws exactly when some piece throws. */
  lemma {:induction false} AsWrittenAgrees(elements: seq<Page>, pieces: seq<string>, n: nat, lineNum: nat)
    requires n <= |pieces|
    ensures DiagnosticsAsWritten(elements, pieces, n, lineNum).Failure? <==> exists i :: 0 <= i < n && Throws(elements, pieces, i)
    ensures DiagnosticsAsWritten(elements, pieces, n, lineNum).Success? ==>
      DiagnosticsAsWritten(elements, pieces, n, lineNum).value == Diagnostics(elements, pieces, n, lineNum)
  {
    if n > 0 {
      AsWrittenAgrees(elements, pieces, n - 1, lineNum);
      SegmentAgrees(elements, pieces, n - 1, lineNum);
      if DiagnosticsAsWritten(elements, pieces, n, lineNum).Failure? {
        if DiagnosticsAsWritten(elements, pieces, n - 1, lineNum).Failure? {
          var i :| 0 <= i < n - 1 && Throws(elements, pieces, i);
          assert 0 <= i < n && Throws(elements, pieces, i);
        } else {
          assert Throws(elements, pieces, n - 1);
        }
      }
    }
  }

  lemma ValidateAsWrittenAgrees(elements: seq<Page>, line: string, lineNum: nat)
    ensures ValidateAsWritten(elements, line, lineNum).Success? ==>
      ValidateAsWritten(elements, line, lineNum).value == ValidateSpec(elements, line, lineNum)
  {
    if HasPagePair(line) {
      var pieces := Split(line, "\"");
      AsWrittenAgrees(elements, pieces, |pieces|, lineNum);
    }
  }

  /** A line that passes the guard and starts with `."` makes `validate`
      throw, whatever the pages: its first piece is `.`, with no page before it. */
  lemma LeadingDotThrows(elements: seq<Page>, line: string, lineNum: nat)
    requires |line| >= 2 && line[0] == '.' && line[1] == '"' && HasPagePair(line)
    ensures ValidateAsWritten(elements, line, lineNum).Failure?
  {
    var pieces := Split(line, "\"");
    IndexOfChar(line, '"', 0, 1);
    assert pieces[0] == line[..1] == ".";
    AsWrittenAgrees(elements, pieces, |pieces|, lineNum);
    assert Throws(elements, pieces, 0);
  }

  /** The line `."a"."b"` is one. */
  lemma LeadingDotExample(elements: seq<Page>, lineNum: nat)
    ensures ValidateAsWritten(elements, ".\"a\".\"b\"", lineNum).Failure?
  {
    var line := ".\"a\".\"b\"";
    assert line[1..8] == "\"" + "a" + "\".\"" + "b" + "\"";
    PairOfQuoted(line, 1, "a", "b");
    LeadingDotThrows(elements, line, lineNum);
  }

  // ------------------------------------------------------------------------
  // Completion items

  function ObjectItem(o: PageObject, entered: string, line: string): (it: PageItem)
    requires StartsWith(o.text, entered)
    ensures it.kind == Property && it.itemLabel == o.text && it.data == o.id
    ensures it.insertText.Some? && StartsWith(it.insertText.value, o.text[|entered|..])
  {
    var insertText := o.text[|entered|..];
    var text :=
      if EndsWith(line, "\".\"") then insertText
      else if EndsWith(line, ".\"") then insertText + "\" "
      else insertText;
    PageItem(o.text, Property, o.desc, o.id, Some(text), false)
  }

  function PageItemOf(p: Page, entered: string, line: string): (it: PageItem)
    requires StartsWith(p.text, entered)
    ensures it.kind == Module && it.itemLabel == p.text && it.data == p.id
    ensures it.insertText.Some? ==> StartsWith(it.insertText.value, p.text[|entered|..])
  {
    var insertText := p.text[|entered|..];
    if EndsWith(line, "\".\"") then PageItem(p.text, Module, p.desc, p.id, None, false)
    else if EndsWith(line, "\"") then PageItem(p.text, Module, p.desc, p.id, Some(insertText + "\"."), true)
    else PageItem(p.text, Module, p.desc, p.id, Some(insertText), false)
  }

  /** The items for the objects whose text starts with `entered`, in order. */
  function ObjectItems(objects: seq<PageObject>, entered: string, line: string): (r: seq<PageItem>)
    ensures |r| <= |objects|
  {
    if objects == [] then []
    else
      var o := objects[|objects| - 1];
      ObjectItems(objects[..|objects| - 1], entered, line) + (if StartsWith(o.text, entered) then [ObjectItem(o, entered, line)] else [])
  }

  /** Each object item is a property labelled with the text of an object
      that starts with the entered text, and inserts the rest of that text;
      every such object has its item. */
  lemma {:induction false} ObjectItemsFilter(objects: seq<PageObject>, entered: string, line: string)
    ensures forall it :: it in ObjectItems(objects, entered, line) ==> (it.kind == Property && StartsWith(it.itemLabel, entered) &&
      it.insertText.Some? && StartsWith(it.insertText.value, it.itemLabel[|entered|..]) &&
      exists k :: 0 <= k < |objects| && objects[k].text == it.itemLabel && objects[k].id == it.data)
    ensures forall k :: 0 <= k < |objects| && StartsWith(objects[k].text, entered) ==>
      ObjectItem(objects[k], entered, line) in ObjectItems(objects, entered, line)
  {
    if objects != [] {
      var init := objects[..|objects| - 1];
      ObjectItemsFilter(init, entered, line);
      assert forall k :: 0 <= k < |init| ==> init[k] == objects[k];
    }
  }

  /** The items for the pages whose text starts with `entered`, in order. */
  function PageItems(pages: seq<Page>, entered: string, line: string): (r: seq<PageItem>)
    ensures |r| <= |pages|
  {
    if pages == [] then []
    else
      var p := pages[|pages| - 1];
      PageItems(pages[..|pages| - 1], entered, line) + (if StartsWith(p.text, entered) then [PageItemOf(p, entered, line)] else [])
  }

  /** Each page item is a module labelled with the text of a page that starts
      with the entered text, and any insert text starts with the rest of that
      text; every such page has its item. */
  lemma {:induction false} PageItemsFilter(pages: seq<Page>, entered: string, line: string)
    ensures forall it :: it in PageItems(pages, entered, line) ==> (it.kind == Module && StartsWith(it.itemLabel, entered) &&
      (it.insertText.Some? ==> StartsWith(it.insertText.value, it.itemLabel[|entered|..])) &&
      exists k :: 0 <= k < |pages| && pages[k].text == it.itemLabel && pages[k].id == it.data)
    ensures forall k :: 0 <= k < |pages| && StartsWith(pages[k].text, entered) ==>
      PageItemOf(pages[k], entered, line) in PageItems(pages, entered, line)
  {
    if pages != [] {
      var init := pages[..|pages| - 1];
      PageItemsFilter(init, entered, line);
      assert forall k :: 0 <= k < |init| ==> init[k] == pages[k];
    }
  }

  /** After a closing quote that does not end `"."`, a page item inserts the
      rest of the page name followed by `".` and asks for the page objects. */
  lemma PageItemAfterQuote(p: Page, entered: string, line: string)
    requires StartsWith(p.text, entered) && EndsWith(line, "\"") && !EndsWith(line, "\".\"")
    ensures PageItemOf(p, entered, line).insertText == Some(p.text[|entered|..] + "\".")
    ensures PageItemOf(p, entered, line).suggestsObjects
  {
  }

  /** `getCompletion` as a specification: null outside quotes and when no
      item qualifies. */
  function CompletionOf(elements: seq<Page>, line: string, character: nat): (r: Option<seq<PageItem>>)
    ensures FeaturePositionOf(line, character).None? ==> r.None?
    ensures r.Some? ==> |r.value| > 0
  {
    match FeaturePositionOf(line, character)
    case None => None
    case Some(pos) =>
      var items :=
        if pos.pageObject.Some? then
          match PageElement(elements, pos.page)
          case None => []
          case Some(page) => ObjectItems(page.objects, pos.pageObject.value, line)
        else PageItems(elements, pos.page, line);
      if |items| > 0 then Some(items) else None
  }

  // ------------------------------------------------------------------------
  // The handler

  class PagesHandler {
    const host: Host
    /** `elements`: the configured pages that were found. */
    var elements: seq<Page>

    /** The constructor: `populate` over the configured pages. */
    constructor(host: Host, pages: seq<PageSetting>)
      ensures this.host == host && elements == PagesOf(host, pages)
    {
      this.host := host;
      elements := [];
      new;
      Populate(pages);
    }

    /** `populate`: the page of every configured name whose glob found a file. */
    method Populate(pages: seq<PageSetting>)
      modifies this
      ensures elements == PagesOf(host, pages)
    {
      var res: seq<Page> := [];
      var i := 0;
      while i < |pages|
        invariant 0 <= i <= |pages|
        invariant res == PagesOf(host, pages[..i])
      {
        assert pages[..i + 1][..i] == pages[..i];
        var p := pages[i];
        if p.file.Some? {
          var file := p.file.value;
          var text := host.clearComments(file.content);
          var objects := PageObjects(host, text, file.path);
          var page := Page("page" + host.md5(p.name), p.name, Join(Head(SplitLines(text), 10), "\r\n"),
            Location(host.osPath(file.path), 0, 0), objects);
          res := res + [page];
        }
        i := i + 1;
      }
      assert pages[..|pages|] == pages;
      elements := res;
    }

    /** `getDefinition`: inside quotes, the object's definition when an
        object text was typed, the page's otherwise. */
    function Definition(line: string, character: nat): (r: Option<Location>)
      reads this
      ensures FeaturePositionOf(line, character).None? ==> r.None?
      ensures FeaturePositionOf(line, character).Some? ==>
        var pos := FeaturePositionOf(line, character).value;
        if pos.pageObject.Some? && pos.pageObject.value != "" then
          (r.Some? <==> PageObjectElement(elements, pos.page, pos.pageObject.value).Some?) &&
          (r.Some? ==> exists o :: o in PageElement(elements, pos.page).value.objects && o.text == pos.pageObject.value && o.def == r.value)
        else
          (r.Some? <==> PageElement(elements, pos.page).Some?) &&
          (r.Some? ==> exists k :: 0 <= k < |elements| && elements[k].text == pos.page && elements[k].def == r.value)
    {
      match FeaturePositionOf(line, character)
      case None => None
      case Some(pos) =>
        PageElementFirst(elements, pos.page);
        if pos.pageObject.Some? && pos.pageObject.value != "" then
          match PageObjectElement(elements, pos.page, pos.pageObject.value)
          case None => None
          case Some(el) => Some(el.def)
        else
          match PageElement(elements, pos.page)
          case None => None
          case Some(el) => Some(el.def)
    }

    /** `validate`. */
    method Validate(line: string, lineNum: nat) returns (res: seq<Diagnostic>)
      ensures res == ValidateSpec(elements, line, lineNum)
      ensures !HasPagePair(line) ==> res == []
    {
      if !HasPagePair(line) {
        return [];
      }
      var lineArr := Split(line, "\"");
      res := PieceWarnings(lineArr, lineNum);
    }

    /** The loop of `validate` over the pieces of the line split on `"`. */
    method PieceWarnings(lineArr: seq<string>, lineNum: nat) returns (res: seq<Diagnostic>)
      ensures res == Diagnostics(elements, lineArr, |lineArr|, lineNum)
    {
      res := [];
      var i := 0;
      while i < |lineArr|
        invariant 0 <= i <= |lineArr|
        invariant res == Diagnostics(elements, lineArr, i, lineNum)
      {
        DiagnosticsNext(elements, lineArr, i, lineNum);
        ghost var seg := SegmentDiagnostic(elements, lineArr, i, lineNum);
        ghost var before := res;
        if lineArr[i] == "." && i > 0 {
          var curr := Offset(lineArr, i);
          var page := lineArr[i - 1];
          if PageElement(elements, page).None? {
            res := res + [Diagnostic(lineNum, curr - |page| - 1, curr - 1, PageMessage(page), DiagnosticSource)];
            assert seg == Some(res[|res| - 1]);
          } else if i + 1 < |lineArr| {
            var pageObject := lineArr[i + 1];
            if PageObjectElement(elements, page, pageObject).None? {
              res := res + [Diagnostic(lineNum, curr + 2, curr + 3 + |pageObject| - 1, ObjectMessage(page, pageObject), DiagnosticSource)];
              assert seg == Some(res[|res| - 1]);
            }
          }
        }
        assert res == before + (if seg.Some? then [seg.value] else []);
        i := i + 1;
      }
    }

    /** `getCompletion`. */
    method Completion(line: string, character: nat) returns (r: Option<seq<PageItem>>)
      ensures r == CompletionOf(elements, line, character)
    {
      var featurePosition := FeaturePositionOf(line, character);
      if featurePosition.None? {
        return None;
      }
      var pos := featurePosition.value;
      var completionItems: seq<PageItem> := [];
      if pos.pageObject.Some? {
        var page := PageElement(elements, pos.page);
        if page.Some? {
          completionItems := ObjectCompletions(page.value.objects, pos.pageObject.value, line);
        }
      } else {
        completionItems := PageCompletions(pos.page, line);
      }
      r := if |completionItems| > 0 then Some(completionItems) else None;
    }

    /** The `forEach` over the pages of `getCompletion`. */
    method PageCompletions(entered: string, line: string) returns (completionItems: seq<PageItem>)
      ensures completionItems == PageItems(elements, entered, line)
    {
      completionItems := [];
      var i := 0;
      while i < |elements|
        invariant 0 <= i <= |elements|
        invariant completionItems == PageItems(elements[..i], entered, line)
      {
        assert elements[..i + 1][..i] == elements[..i];
        var page := elements[i];
        if StartsWith(page.text, entered) {
          completionItems := completionItems + [PageItemOf(page, entered, line)];
        }
        i := i + 1;
      }
      assert elements[..|elements|] == elements;
    }
  }

  /** The `forEach` over the objects of a page of `getCompletion`. */
  method ObjectCompletions(objects: seq<PageObject>, entered: string, line: string) returns (completionItems: seq<PageItem>)
    ensures completionItems == ObjectItems(objects, entered, line)
  {
    completionItems := [];
    var i := 0;
    while i < |objects|
      invariant 0 <= i <= |objects|
      invariant completionItems == ObjectItems(objects[..i], entered, line)
    {
      assert objects[..i + 1][..i] == objects[..i];
      var obj := objects[i];
      if StartsWith(obj.text, entered) {
        completionItems := completionItems + [ObjectItem(obj, entered, line)];
      }
      i := i + 1;
    }
    assert objects[..|objects|] == objects;
  }
}
