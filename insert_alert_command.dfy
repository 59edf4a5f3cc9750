/** The alert toggle of insertAlertCommand.ts: the text transform
    `toggleAlertSelectionText`, the marker cycle on one line, and the
    command that picks what to toggle from the selection, the cursor line,
    the enclosing blockquotes and the enclosing paragraph. */
module InsertAlertCommand {
  import opened Wrappers
  import opened Text
  import opened AlertParsing
  import opened Sorting
  import opened Editor
  import opened SyntaxTreeUtils

  /** `DEFAULT_ALERT_TYPE`, written as `NOTE`. */
  const DefaultAlertType: AlertType := Note

  /** `createAlertLine`: the prefix, then `[!NOTE]`. */
  function CreateAlertLine(prefix: string): string {
    prefix + "[!NOTE]"
  }

  /** The marker `createAlertLine` writes is the default type's marker. */
  lemma DefaultMarker()
    ensures MarkerText(DefaultAlertType) == "[!NOTE]"
  {
    UpperTokenLiteral(Note);
  }

  /** `BLOCKQUOTE_PREFIX_PATTERN.exec(line)?.[1]` for `^(\s*(?:>\s*)+)`. A
      string matches `\s*(?:>\s*)+` exactly when it is made of whitespace
      and `>` and holds at least one `>`, and the greedy quantifiers take
      the longest such start of the line: the whole run of whitespace and
      `>` at its head, provided that run holds a `>`. */
  function BlockquotePrefix(line: string): Option<string> {
    var n := SpanFrom(line, 0, QuoteOrWhitespace);
    if '>' in line[..n] then Some(line[..n]) else None
  }

  /** The prefix found is a start of the line made of whitespace and `>`,
      holding a `>`, that cannot be extended; and when none is found, no
      start of the line made of whitespace and `>` holds a `>`. */
  lemma BlockquotePrefixSpec(line: string)
    ensures BlockquotePrefix(line).Some? ==>
      var p := BlockquotePrefix(line).value;
      && p == line[..|p|] && All(p, QuoteOrWhitespace) && '>' in p
      && (|p| == |line| || !InClass(line[|p|], QuoteOrWhitespace))
    ensures BlockquotePrefix(line).None? ==>
      forall j :: 0 <= j <= |line| && All(line[..j], QuoteOrWhitespace) ==> '>' !in line[..j]
  {
    var n := SpanFrom(line, 0, QuoteOrWhitespace);
    AllInSlice(line, 0, n, QuoteOrWhitespace);
    forall j | 0 <= j <= |line| && All(line[..j], QuoteOrWhitespace) ensures '>' in line[..n] || '>' !in line[..j] {
      AllInSlice(line, 0, j, QuoteOrWhitespace);
      SpanFromPast(line, 0, j, QuoteOrWhitespace);
      assert line[..j] == line[..n][..j];
    }
  }

  /** `isBlockquoteLine`: `BLOCKQUOTE_PREFIX_PATTERN.test(line)`. */
  predicate IsBlockquoteLine(line: string) {
    BlockquotePrefix(line).Some?
  }

  /** A line that starts with `>` is a blockquote line. */
  lemma QuotedIsBlockquote(line: string)
    requires line != [] && line[0] == '>'
    ensures IsBlockquoteLine(line)
  {
    var n := SpanFrom(line, 0, QuoteOrWhitespace);
    assert line[..n][0] == '>';
  }

  /** An alert title line is a blockquote line. */
  lemma {:induction false} AlertIsBlockquote(line: string)
    requires !ParseTitleLine(line).NotAnAlert?
    ensures IsBlockquoteLine(line)
  {
    ParsePlaced(line);
    var m := ParseTitleLine(line).markerRange;
    var a :| 0 <= a < m.from <= |line| && line[a] == '>' && AllIn(line, 0, a, Whitespace) && AllIn(line, a + 1, m.from, Whitespace);
    QuoteRunReaches(line, a);
  }

  lemma {:induction false} QuoteRunReaches(line: string, a: nat)
    requires a < |line| && line[a] == '>' && AllIn(line, 0, a, Whitespace)
    ensures '>' in line[..SpanFrom(line, 0, QuoteOrWhitespace)]
  {
    assert AllIn(line, 0, a + 1, QuoteOrWhitespace);
    SpanFromPast(line, 0, a + 1, QuoteOrWhitespace);
    assert line[..SpanFrom(line, 0, QuoteOrWhitespace)][a] == '>';
  }

  lemma {:induction false} SpanFromPast(s: string, i: nat, j: nat, k: CharClass)
    requires i <= j <= |s| && AllIn(s, i, j, k)
    ensures j <= SpanFrom(s, i, k)
    decreases j - i
  {
    if i < j {
      SpanFromPast(s, i + 1, j, k);
    }
  }

  /** `BLOCKQUOTE_LINE_PREFIX.exec(text)[0].length` for `^>\s?`. */
  function BlockquoteLinePrefix(text: string): (r: Option<nat>)
    ensures r.Some? <==> text != [] && text[0] == '>'
    ensures r.Some? ==> 1 <= r.value <= 2 && r.value <= |text| && (r.value == 2 <==> |text| > 1 && IsWhitespace(text[1]))
  {
    if text == [] || text[0] != '>' then None
    else if |text| > 1 && IsWhitespace(text[1]) then Some(2)
    else Some(1)
  }

  /** `lines.every(isBlockquoteLine)`. */
  predicate AllQuoted(lines: seq<string>) {
    forall i :: 0 <= i < |lines| ==> IsBlockquoteLine(lines[i])
  }

  /** `lines.map((line) => `> ${line}`)`. */
  function QuoteLines(lines: seq<string>): (r: seq<string>)
    ensures |r| == |lines| && forall i :: 0 <= i < |lines| ==> r[i] == "> " + lines[i]
  {
    seq(|lines|, i requires 0 <= i < |lines| => "> " + lines[i])
  }

  /** The title line with its marker replaced by the next type's marker. */
  function CycledLine(line: string): string
    requires !ParseTitleLine(line).NotAnAlert?
  {
    var r := ParseTitleLine(line);
    line[..r.markerRange.from] + MarkerText(NextType(r.alertType)) + line[r.markerRange.to..]
  }

  /** `toggleAlertSelectionText`. */
  function ToggleAlertSelectionText(text: string): string {
    var lines := Split(text);
    if !AllQuoted(lines) then
      Join([CreateAlertLine("> ")] + QuoteLines(lines))
    else
      var firstLine := lines[0];
      if !ParseTitleLine(firstLine).NotAnAlert? then
        Join([CycledLine(firstLine)] + lines[1..])
      else
        var prefix := BlockquotePrefix(firstLine).GetOr("> ");
        Join([CreateAlertLine(prefix)] + lines)
  }

  lemma {:induction false} MarkerTextHasNoLineFeed(t: AlertType)
    ensures '\n' !in MarkerText(t)
  {
    UpperTokenLiteral(t);
  }

  lemma {:induction false} CycledHasNoLineFeed(line: string)
    requires !ParseTitleLine(line).NotAnAlert? && '\n' !in line
    ensures '\n' !in CycledLine(line)
  {
    var r := ParseTitleLine(line);
    MarkerTextHasNoLineFeed(NextType(r.alertType));
    assert '\n' !in line[..r.markerRange.from] && '\n' !in line[r.markerRange.to..] by {
      forall i | 0 <= i < r.markerRange.from ensures line[..r.markerRange.from][i] == line[i] {
      }
      forall i | r.markerRange.to <= i < |line| ensures line[r.markerRange.to..][i - r.markerRange.to] == line[i] {
      }
    }
  }

  /** The lines a text with an unquoted line becomes: `> [!NOTE]` and the
      quoted lines, none with a line feed and all quoted. */
  lemma {:induction false} UnquotedOutput(lines: seq<string>, out: seq<string>)
    requires NoLineFeeds(lines) && out == ["> [!NOTE]"] + QuoteLines(lines)
    ensures NoLineFeeds(out) && AllQuoted(out)
  {
    forall i | 0 <= i < |out| ensures '\n' !in out[i] && IsBlockquoteLine(out[i]) {
      if i > 0 {
        assert out[i] == "> " + lines[i - 1];
      }
      QuotedIsBlockquote(out[i]);
    }
  }

  lemma {:induction false} ToggleUnquotedText(text: string)
    requires !AllQuoted(Split(text))
    ensures ToggleAlertSelectionText(text) == Join([CreateAlertLine("> ")] + QuoteLines(Split(text)))
  {
  }

  /** A text some line of which is not quoted becomes an alert: the line
      `> [!NOTE]`, a bare note alert, and then every line quoted with
      `> `, so there is one line more and every line is quoted. */
  lemma {:induction false} ToggleUnquoted(text: string)
    requires !AllQuoted(Split(text))
    ensures var lines := Split(text);
      var out := Split(ToggleAlertSelectionText(text));
      && |out| == |lines| + 1
      && out[0] == "> [!NOTE]"
      && ParseTitleLine(out[0]) == BareAlert(Note, TextRange(2, 9))
      && (forall i :: 0 <= i < |lines| ==> out[i + 1] == "> " + lines[i])
      && AllQuoted(out)
  {
    var lines := Split(text);
    var out := ["> [!NOTE]"] + QuoteLines(lines);
    ToggleUnquotedText(text);
    assert CreateAlertLine("> ") == "> [!NOTE]";
    UnquotedOutput(lines, out);
    SplitJoin(out);
    ExampleBare();
  }

  /** The parse of a cycled line: the next type, the marker of that type at
      the same place, and the same title. */
  lemma {:induction false} CycledLineSpec(line: string)
    requires !ParseTitleLine(line).NotAnAlert?
    ensures var r := ParseTitleLine(line);
      var r' := ParseTitleLine(CycledLine(line));
      && !r'.NotAnAlert? && r'.alertType == NextType(r.alertType)
      && r'.markerRange == TextRange(r.markerRange.from, r.markerRange.from + |MarkerText(NextType(r.alertType))|)
      && r'.BareAlert? == r.BareAlert?
      && (r.TitledAlert? ==> r'.title == r.title)
  {
    ReplaceMarker(line, NextType(ParseTitleLine(line).alertType));
  }

  /** A quoted text whose first line is an alert has that line's marker
      replaced by the next type's upper-case marker; the type becomes the
      next one, the title stays, and the other lines are unchanged. */
  lemma {:induction false} ToggleAlert(text: string)
    requires AllQuoted(Split(text)) && !ParseTitleLine(Split(text)[0]).NotAnAlert?
    ensures var lines := Split(text);
      var r := ParseTitleLine(lines[0]);
      && Split(ToggleAlertSelectionText(text)) == [CycledLine(lines[0])] + lines[1..]
      && CycledLine(lines[0]) == lines[0][..r.markerRange.from] + MarkerText(NextType(r.alertType)) + lines[0][r.markerRange.to..]
  {
    var lines := Split(text);
    ToggleAlertOf(text, lines[0], lines[1..]);
  }

  lemma {:induction false} ToggleAlertOf(text: string, line: string, rest: seq<string>)
    requires Split(text) == [line] + rest && AllQuoted(rest) && !ParseTitleLine(line).NotAnAlert?
    ensures ToggleAlertSelectionText(text) == Join([CycledLine(line)] + rest)
    ensures Split(ToggleAlertSelectionText(text)) == [CycledLine(line)] + rest
  {
    var lines := Split(text);
    AlertIsBlockquote(line);
    assert AllQuoted(lines) by {
      forall i | 0 < i < |lines| ensures IsBlockquoteLine(lines[i]) {
        assert lines[i] == rest[i - 1];
      }
    }
    assert lines[1..] == rest;
    var out := [CycledLine(line)] + rest;
    CycledHasNoLineFeed(line);
    assert NoLineFeeds(out) by {
      forall i | 0 < i < |out| ensures '\n' !in out[i] {
        assert out[i] == lines[i];
      }
    }
    SplitJoin(out);
  }

  /** A quoted text whose first line is not an alert gets the line
      `prefix[!NOTE]` in front, where the prefix is the first line's run of
      whitespace and `>`, so the new line sits at the same depth; the
      `'> '` fallback is never taken, since the first line is quoted. */
  lemma {:induction false} ToggleQuoted(text: string)
    requires AllQuoted(Split(text)) && ParseTitleLine(Split(text)[0]).NotAnAlert?
    ensures var lines := Split(text);
      && BlockquotePrefix(lines[0]).Some?
      && Split(ToggleAlertSelectionText(text)) == [BlockquotePrefix(lines[0]).value + "[!NOTE]"] + lines
  {
    var lines := Split(text);
    var prefix := BlockquotePrefix(lines[0]).value;
    var out := [CreateAlertLine(prefix)] + lines;
    assert '\n' !in prefix by {
      assert prefix == lines[0][..|prefix|];
      forall i | 0 <= i < |prefix| ensures prefix[i] == lines[0][i] {
      }
    }
    assert NoLineFeeds(out) by {
      forall i | 0 < i < |out| ensures '\n' !in out[i] {
        assert out[i] == lines[i - 1];
      }
    }
    SplitJoin(out);
  }

  /** `line` is a title line of type `t` whose marker starts at `from`. */
  predicate MarkerAt(line: string, from: nat, t: AlertType) {
    var r := ParseTitleLine(line);
    !r.NotAnAlert? && r.alertType == t && r.markerRange == TextRange(from, from + |MarkerText(t)|)
  }

  /** Cycling a line written as a head, the marker of `t` and a tail writes
      the next type's marker between the same head and tail. */
  lemma {:induction false} CycledAt(line: string, head: string, t: AlertType, tail: string)
    requires line == head + MarkerText(t) + tail && MarkerAt(line, |head|, t)
    ensures CycledLine(line) == head + MarkerText(NextType(t)) + tail
    ensures MarkerAt(CycledLine(line), |head|, NextType(t))
  {
    CycledText(line, head, t, tail);
    CycledMarker(line, |head|, t);
  }

  lemma {:induction false} CycledText(line: string, head: string, t: AlertType, tail: string)
    requires line == head + MarkerText(t) + tail && MarkerAt(line, |head|, t)
    ensures CycledLine(line) == head + MarkerText(NextType(t)) + tail
  {
    assert line[..|head|] == head;
    assert line[|head| + |MarkerText(t)|..] == tail;
  }

  /** The cycled line has the next type's marker where the old one began. */
  lemma {:induction false} CycledMarker(line: string, from: nat, t: AlertType)
    requires MarkerAt(line, from, t)
    ensures MarkerAt(CycledLine(line), from, NextType(t))
  {
    CycledLineSpec(line);
  }

  /** A quoted text whose first line is a title line of type `t`, written
      as a head, the marker of `t` and a tail. */
  predicate AlertText(text: string, head: string, t: AlertType, tail: string, rest: seq<string>) {
    var line := head + MarkerText(t) + tail;
    Split(text) == [line] + rest && AllQuoted(rest) && MarkerAt(line, |head|, t)
  }

  /** Toggling such a text writes the next type's marker between the same
      head and tail. */
  lemma {:induction false} ToggleStep(text: string, head: string, t: AlertType, tail: string, rest: seq<string>)
    requires AlertText(text, head, t, tail, rest)
    ensures AlertText(ToggleAlertSelectionText(text), head, NextType(t), tail, rest)
    ensures ToggleAlertSelectionText(text) == Join([head + MarkerText(NextType(t)) + tail] + rest)
  {
    var line := head + MarkerText(t) + tail;
    ToggleAlertOf(text, line, rest);
    CycledAt(line, head, t, tail);
  }

  /** After one toggle of a quoted alert, five more toggles give the same
      text again: the types go round the cycle of five. */
  lemma {:induction false} ToggleCycles(text: string)
    requires AllQuoted(Split(text)) && !ParseTitleLine(Split(text)[0]).NotAnAlert?
    ensures var once := ToggleAlertSelectionText(text);
      ToggleAlertSelectionText(ToggleAlertSelectionText(ToggleAlertSelectionText(ToggleAlertSelectionText(ToggleAlertSelectionText(once))))) == once
  {
    var lines := Split(text);
    var r := ParseTitleLine(lines[0]);
    var head, tail := lines[0][..r.markerRange.from], lines[0][r.markerRange.to..];
    var t := NextType(r.alertType);
    var rest := lines[1..];
    assert AllQuoted(rest) by {
      forall i | 0 <= i < |rest| ensures IsBlockquoteLine(rest[i]) {
        assert rest[i] == lines[i + 1];
      }
    }
    ToggleAlert(text);
    CycledLineSpec(lines[0]);
    var once := ToggleAlertSelectionText(text);
    assert AlertText(once, head, t, tail, rest);
    ToggleStep(once, head, t, tail, rest);
    var two := ToggleAlertSelectionText(once);
    ToggleStep(two, head, NextType(t), tail, rest);
    var three := ToggleAlertSelectionText(two);
    ToggleStep(three, head, NextType(NextType(t)), tail, rest);
    var four := ToggleAlertSelectionText(three);
    ToggleStep(four, head, NextType(NextType(NextType(t))), tail, rest);
    var five := ToggleAlertSelectionText(four);
    ToggleStep(five, head, NextType(NextType(NextType(NextType(t)))), tail, rest);
    CycleFive(t);
    assert Join(Split(once)) == once;
  }

  /** `line` is a line of `doc`: its text is the document between its ends. */
  predicate LineOf(doc: string, line: Line) {
    line.from <= line.to <= |doc| && line.text == doc[line.from..line.to]
  }

  /** What `toggleAlertMarkerOnLine` does to the text of an alert title
      line: its marker range, replaced by the next type's marker; none for a
      line that is not an alert title line. */
  function MarkerEdit(text: string): (e: Option<Change>)
    ensures e.Some? ==> e.value.from <= e.value.to <= |text|
  {
    var r := ParseTitleLine(text);
    if r.NotAnAlert? then None
    else Some(Change(r.markerRange.from, r.markerRange.to, MarkerText(NextType(r.alertType))))
  }

  /** The change `toggleAlertMarkerOnLine` dispatches: the marker edit at
      the line's offset in the document. */
  function MarkerChange(line: Line): (c: Option<Change>)
    ensures c.Some? ==> line.from <= c.value.from <= c.value.to <= line.from + |line.text|
  {
    match MarkerEdit(line.text)
    case None => None
    case Some(e) => Some(Change(line.from + e.from, line.from + e.to, e.insert))
  }

  /** The marker edit turns the line into the cycled line. */
  lemma {:induction false} MarkerEditCycles(text: string)
    requires MarkerEdit(text).Some?
    ensures var e := MarkerEdit(text).value;
      CycledLine(text) == text[..e.from] + e.insert + text[e.to..]
  {
  }

  lemma {:induction false} OneChangeFits(doc: string, c: Change)
    requires c.from <= c.to <= |doc|
    ensures ChangesFit([c], |doc|)
  {
  }

  /** A change within a line of the document changes that line alone. */
  lemma {:induction false} ApplyInLine(doc: string, line: Line, a: nat, b: nat, ins: string)
    requires LineOf(doc, line) && a <= b <= |line.text|
    ensures ChangesFit([Change(line.from + a, line.from + b, ins)], |doc|)
    ensures ApplyChanges(doc, [Change(line.from + a, line.from + b, ins)]) == doc[..line.from] + (line.text[..a] + ins + line.text[b..]) + doc[line.to..]
  {
    var c := Change(line.from + a, line.from + b, ins);
    OneChangeFits(doc, c);
    ApplyOne(doc, c);
    SplitAround(doc, line.from, line.to, line.text, a, b);
  }

  lemma {:induction false} SplitAround(doc: string, from: nat, to: nat, text: string, a: nat, b: nat)
    requires from <= to <= |doc| && text == doc[from..to] && a <= b <= |text|
    ensures doc[..from + a] == doc[..from] + text[..a]
    ensures doc[from + b..] == text[b..] + doc[to..]
  {
    assert |doc[..from] + text[..a]| == from + a;
    forall k | 0 <= k < from + a ensures doc[..from + a][k] == (doc[..from] + text[..a])[k] {
      if k >= from {
        assert text[k - from] == doc[k];
      }
    }
    var tail := doc[from + b..];
    forall k | 0 <= k < |tail| ensures tail[k] == (text[b..] + doc[to..])[k] {
      if k < |text| - b {
        assert text[b + k] == doc[from + b + k];
      }
    }
  }

  /** The marker change on a line of the document lies in that line, and
      applying it puts the cycled line in place of the line: it is the
      document-level form of the text transform on the line. */
  lemma {:induction false} MarkerChangeCycles(doc: string, line: Line)
    requires LineOf(doc, line) && MarkerChange(line).Some?
    ensures var c := MarkerChange(line).value;
      && line.from <= c.from <= c.to <= line.to
      && ChangesFit([c], |doc|)
      && ApplyChanges(doc, [c]) == doc[..line.from] + CycledLine(line.text) + doc[line.to..]
  {
    MarkerEditCycles(line.text);
    EditInLine(doc, line, MarkerEdit(line.text).value, MarkerChange(line).value, CycledLine(line.text));
  }

  /** An edit of a line's text, moved to the line's offset, lies in the
      line and puts the edited text in its place. */
  lemma {:induction false} EditInLine(doc: string, line: Line, e: Change, c: Change, edited: string)
    requires LineOf(doc, line) && e.from <= e.to <= |line.text|
    requires c == Change(line.from + e.from, line.from + e.to, e.insert)
    requires edited == line.text[..e.from] + e.insert + line.text[e.to..]
    ensures line.from <= c.from <= c.to <= line.to
    ensures ChangesFit([c], |doc|) && ApplyChanges(doc, [c]) == doc[..line.from] + edited + doc[line.to..]
  {
    ApplyInLine(doc, line, e.from, e.to, e.insert);
  }

  /** `toggleAlertMarkerOnLine`: a line that is not an alert title line is
      left alone and gives `false`; otherwise its marker is cycled and the
      answer is `true`. */
  method ToggleAlertMarkerOnLine(view: EditorView, line: Line) returns (toggled: bool)
    requires line.from + |line.text| <= |view.doc|
    modifies view
    ensures toggled == MarkerChange(line).Some?
    ensures toggled ==> ChangesFit([MarkerChange(line).value], |old(view.doc)|)
    ensures toggled ==> view.doc == ApplyChanges(old(view.doc), [MarkerChange(line).value])
    ensures !toggled ==> view.doc == old(view.doc)
    ensures view.selection == if toggled then ClampSelection(old(view.selection), |view.doc|) else old(view.selection)
    ensures old(view.Valid()) ==> view.Valid()
  {
    var change := MarkerChange(line);
    if change.None? {
      return false;
    }
    OneChangeFits(view.doc, change.value);
    view.Dispatch(Transaction([change.value], None));
    return true;
  }

  /** `ranges.filter((range) => !range.empty)`, in the same order. */
  function NonEmptyRanges(ranges: seq<SelectionRange>): (r: seq<SelectionRange>)
    ensures forall x :: x in r <==> x in ranges && !x.Empty()
    decreases |ranges|
  {
    if ranges == [] then []
    else (if ranges[0].Empty() then [] else [ranges[0]]) + NonEmptyRanges(ranges[1..])
  }

  /** A selection range within a document of length `n`. */
  predicate RangesFit(ranges: seq<SelectionRange>, n: nat) {
    forall i :: 0 <= i < |ranges| ==> ranges[i].To() <= n
  }

  function Min(a: nat, b: nat): nat {
    if a <= b then a else b
  }

  function Max(a: nat, b: nat): nat {
    if a >= b then a else b
  }

  /** A span from the start of a line to the end of a line. */
  predicate LineAligned(doc: string, r: ParagraphRange) {
    && r.from <= r.to <= |doc|
    && (r.from == 0 || doc[r.from - 1] == '\n')
    && (r.to == |doc| || doc[r.to] == '\n')
  }

  /** The body of the expansion loop, given what `collectParagraphRanges`
      reported: the selection range widened to whole lines and to the
      first and the last of the paragraph ranges. */
  function ExpandWith(doc: string, range: SelectionRange, paragraphRanges: seq<ParagraphRange>): ParagraphRange
    requires range.To() <= |doc|
  {
    var baseFrom := LineStart(doc, range.From());
    var baseTo := LineEnd(doc, range.To());
    var paragraphFrom := if |paragraphRanges| > 0 then paragraphRanges[0].from else baseFrom;
    var paragraphTo := if |paragraphRanges| > 0 then paragraphRanges[|paragraphRanges| - 1].to else baseTo;
    ParagraphRange(Min(baseFrom, paragraphFrom), Max(baseTo, paragraphTo))
  }

  /** The expanded range of one selection range. */
  function ExpandRange(doc: string, tree: Tree, range: SelectionRange): ParagraphRange
    requires range.To() <= |doc| && TreeFits(tree, |doc|)
  {
    ExpandWith(doc, range, ParagraphRanges(doc, tree, range.From(), range.To()))
  }

  /** Every range `collectParagraphRanges` reports is a span of whole lines. */
  lemma {:induction false} ParagraphRangeAligned(doc: string, tree: Tree, from: int, to: int, p: ParagraphRange)
    requires TreeFits(tree, |doc|) && p in ParagraphRanges(doc, tree, from, to)
    ensures LineAligned(doc, p)
  {
    ParagraphRangesSpec(doc, tree, from, to);
    var nodes := tree.iterate(from, to);
    var i :| 0 <= i < |nodes| && IsNamed(nodes[i], "paragraph") && GetParagraphLineRange(doc, nodes[i]) == p;
    assert NodeFits(nodes[i], |doc|);
    NodeRangeAligned(doc, nodes[i]);
  }

  /** The line range of a node in the document is a span of whole lines
      around the node's start that reaches the node's last character. */
  lemma {:induction false} NodeRangeAligned(doc: string, node: Node)
    requires NodeFits(node, |doc|)
    ensures var r := GetParagraphLineRange(doc, node);
      LineAligned(doc, r) && r.from <= node.from <= r.to && node.to <= r.to + 1
  {
    ParagraphLineRangeSpec(doc, node);
  }

  /** The paragraph ranges are spans of whole lines, and the first starts
      no later than any other. */
  lemma {:induction false} ParagraphRangesAligned(doc: string, tree: Tree, from: int, to: int)
    requires TreeFits(tree, |doc|)
    ensures var prs := ParagraphRanges(doc, tree, from, to);
      && (forall p :: p in prs ==> LineAligned(doc, p))
      && (forall p :: p in prs ==> prs[0].from <= p.from)
  {
    var prs := ParagraphRanges(doc, tree, from, to);
    ParagraphRangesSpec(doc, tree, from, to);
    forall p | p in prs ensures LineAligned(doc, p) && prs[0].from <= p.from {
      ParagraphRangeAligned(doc, tree, from, to, p);
      var k :| 0 <= k < |prs| && prs[k] == p;
      if k > 0 {
        assert FromLe(prs[0], prs[k]);
      }
    }
  }

  lemma {:induction false} ExpandWithSpec(doc: string, range: SelectionRange, prs: seq<ParagraphRange>)
    requires range.To() <= |doc|
    requires forall p :: p in prs ==> LineAligned(doc, p) && prs[0].from <= p.from
    ensures var e := ExpandWith(doc, range, prs);
      && e.from <= range.From() && range.To() <= e.to
      && LineAligned(doc, e)
      && (forall p :: p in prs ==> e.from <= p.from)
      && (prs != [] ==> prs[|prs| - 1].to <= e.to)
  {
    if prs != [] {
      assert prs[0] in prs && prs[|prs| - 1] in prs;
    }
  }

  /** The expanded range holds the selection range, is a span of whole
      lines, starts no later than any paragraph the range meets and ends no
      earlier than the last of them (by start). */
  lemma {:induction false} ExpandRangeSpec(doc: string, tree: Tree, range: SelectionRange)
    requires range.To() <= |doc| && TreeFits(tree, |doc|)
    ensures var e := ExpandRange(doc, tree, range);
      var prs := ParagraphRanges(doc, tree, range.From(), range.To());
      && e.from <= range.From() && range.To() <= e.to
      && LineAligned(doc, e)
      && (forall p :: p in prs ==> e.from <= p.from)
      && (prs != [] ==> prs[|prs| - 1].to <= e.to)
  {
    ParagraphRangesAligned(doc, tree, range.From(), range.To());
    ExpandWithSpec(doc, range, ParagraphRanges(doc, tree, range.From(), range.To()));
  }

  /** The expanded ranges, one per selection range, in order. */
  function ExpandAll(doc: string, tree: Tree, ranges: seq<SelectionRange>): (r: seq<ParagraphRange>)
    requires RangesFit(ranges, |doc|) && TreeFits(tree, |doc|)
    ensures |r| == |ranges|
    decreases |ranges|
  {
    if ranges == [] then []
    else ExpandAll(doc, tree, ranges[..|ranges| - 1]) + [ExpandRange(doc, tree, ranges[|ranges| - 1])]
  }

  /** The `i`-th expanded range is the expansion of the `i`-th range. */
  lemma {:induction false} ExpandAllAt(doc: string, tree: Tree, ranges: seq<SelectionRange>, i: nat)
    requires RangesFit(ranges, |doc|) && TreeFits(tree, |doc|) && i < |ranges|
    ensures ExpandAll(doc, tree, ranges)[i] == ExpandRange(doc, tree, ranges[i])
    decreases |ranges|
  {
    var init := ranges[..|ranges| - 1];
    if i < |init| {
      assert init[i] == ranges[i];
      ExpandAllAt(doc, tree, init, i);
    }
  }

  /** The loop of lines 101-114: one expanded range per selection range. */
  method ExpandRanges(doc: string, tree: Tree, ranges: seq<SelectionRange>) returns (expanded: seq<ParagraphRange>)
    requires RangesFit(ranges, |doc|) && TreeFits(tree, |doc|)
    ensures expanded == ExpandAll(doc, tree, ranges)
  {
    expanded := [];
    for i := 0 to |ranges|
      invariant expanded == ExpandAll(doc, tree, ranges[..i])
    {
      var range := ranges[i];
      var paragraphRanges := CollectParagraphRanges(doc, tree, range.From(), range.To());
      ExpandAllSnoc(doc, tree, ranges, i);
      expanded := expanded + [ExpandWith(doc, range, paragraphRanges)];
    }
    assert ranges[..|ranges|] == ranges;
  }

  /** One more range adds its expansion at the end. */
  lemma {:induction false} ExpandAllSnoc(doc: string, tree: Tree, ranges: seq<SelectionRange>, i: nat)
    requires RangesFit(ranges, |doc|) && TreeFits(tree, |doc|) && i < |ranges|
    ensures RangesFit(ranges[..i], |doc|) && RangesFit(ranges[..i + 1], |doc|)
    ensures ExpandAll(doc, tree, ranges[..i + 1]) == ExpandAll(doc, tree, ranges[..i]) + [ExpandRange(doc, tree, ranges[i])]
  {
    var head := ranges[..i + 1];
    assert head[..i] == ranges[..i];
    assert head[i] == ranges[i];
  }

  /** The comparator `(a, b) => a.from === b.from ? a.to - b.to : a.from - b.from`
      does not put `a` after `b`. */
  predicate FromToLe(a: ParagraphRange, b: ParagraphRange) {
    a.from < b.from || (a.from == b.from && a.to <= b.to)
  }

  lemma FromToLeTotal()
    ensures TotalPreorder(FromToLe)
  {
  }

  /** The reducer of lines 118-130: a range that starts at or before the end
      of the last merged range extends it; any other range is appended. */
  function MergeInto(merged: seq<ParagraphRange>, range: ParagraphRange): seq<ParagraphRange> {
    if merged == [] then [range]
    else
      var last := merged[|merged| - 1];
      if range.from <= last.to then merged[|merged| - 1 := last.(to := Max(last.to, range.to))]
      else merged + [range]
  }

  /** The reduction over the sorted ranges. */
  function Merge(rs: seq<ParagraphRange>): seq<ParagraphRange>
    decreases |rs|
  {
    if rs == [] then [] else MergeInto(Merge(rs[..|rs| - 1]), rs[|rs| - 1])
  }

  /** `reduce` with the reducer, which updates the last merged range in
      place. */
  method MergeRanges(sorted: seq<ParagraphRange>) returns (merged: seq<ParagraphRange>)
    ensures merged == Merge(sorted)
  {
    merged := [];
    for i := 0 to |sorted|
      invariant merged == Merge(sorted[..i])
    {
      assert sorted[..i + 1][..i] == sorted[..i];
      var range := sorted[i];
      if merged == [] {
        merged := [range];
        continue;
      }
      var last := merged[|merged| - 1];
      if range.from <= last.to {
        merged := merged[|merged| - 1 := last.(to := Max(last.to, range.to))];
        continue;
      }
      merged := merged + [range];
    }
    assert sorted[..|sorted|] == sorted;
  }

  /** Every range ends no earlier than it starts. */
  predicate Proper(rs: seq<ParagraphRange>) {
    forall i :: 0 <= i < |rs| ==> rs[i].from <= rs[i].to
  }

  /** Each range ends before the next one starts: no two overlap or touch. */
  predicate Separated(rs: seq<ParagraphRange>) {
    forall i, j :: 0 <= i < j < |rs| ==> rs[i].to < rs[j].from
  }

  lemma {:induction false} SortedInit(rs: seq<ParagraphRange>)
    requires rs != [] && SortedBy(rs, FromToLe)
    ensures SortedBy(rs[..|rs| - 1], FromToLe)
    ensures forall i :: 0 <= i < |rs| - 1 ==> FromToLe(rs[i], rs[|rs| - 1])
  {
    var init := rs[..|rs| - 1];
    forall i, j | 0 <= i < j < |init| ensures FromToLe(init[i], init[j]) {
      assert init[i] == rs[i] && init[j] == rs[j];
    }
  }

  /** Merging sorted proper ranges gives proper ranges, each ending before
      the next begins; the last one starts no later than the last input. */
  lemma {:induction false} MergeSeparated(rs: seq<ParagraphRange>)
    requires SortedBy(rs, FromToLe) && Proper(rs)
    ensures var m := Merge(rs);
      && Proper(m) && Separated(m)
      && (rs != [] ==> m != [] && m[|m| - 1].from <= rs[|rs| - 1].from)
    decreases |rs|
  {
    if rs != [] {
      var init, r := rs[..|rs| - 1], rs[|rs| - 1];
      SortedInit(rs);
      assert Proper(init) by {
        forall i | 0 <= i < |init| ensures init[i].from <= init[i].to {
          assert init[i] == rs[i];
        }
      }
      MergeSeparated(init);
      var m := Merge(init);
      if m != [] {
        assert FromToLe(init[|init| - 1], r);
        MergeStepSeparated(m, r);
      }
    }
  }

  lemma {:induction false} MergeStepSeparated(m: seq<ParagraphRange>, r: ParagraphRange)
    requires m != [] && Proper(m) && Separated(m) && r.from <= r.to && m[|m| - 1].from <= r.from
    ensures var m' := MergeInto(m, r);
      && Proper(m') && Separated(m') && m' != [] && m'[|m'| - 1].from <= r.from
  {
    var last := m[|m| - 1];
    var m' := MergeInto(m, r);
    if r.from <= last.to {
      forall i, j | 0 <= i < j < |m'| ensures m'[i].to < m'[j].from {
        assert m'[i] == m[i] && m'[j].from == m[j].from;
      }
    } else {
      forall i, j | 0 <= i < j < |m'| ensures m'[i].to < m'[j].from {
        if j == |m| {
          assert m[i].to <= last.to;
        }
      }
    }
  }

  /** Some range holds the offset `x` (the ends count). */
  ghost predicate Covers(rs: seq<ParagraphRange>, x: int) {
    exists i :: 0 <= i < |rs| && rs[i].from <= x <= rs[i].to
  }

  /** Some range of `rs` holds all of `r`. */
  ghost predicate Within(r: ParagraphRange, rs: seq<ParagraphRange>) {
    exists j :: 0 <= j < |rs| && rs[j].from <= r.from && r.to <= rs[j].to
  }

  lemma {:induction false} CoversSnoc(rs: seq<ParagraphRange>, r: ParagraphRange, x: int)
    ensures Covers(rs + [r], x) <==> Covers(rs, x) || r.from <= x <= r.to
  {
    var t := rs + [r];
    if Covers(t, x) {
      var i :| 0 <= i < |t| && t[i].from <= x <= t[i].to;
      if i < |rs| {
        assert rs[i] == t[i];
      }
    }
    if Covers(rs, x) {
      var i :| 0 <= i < |rs| && rs[i].from <= x <= rs[i].to;
      assert t[i] == rs[i];
    }
    if r.from <= x <= r.to {
      assert t[|rs|] == r;
    }
  }

  /** One reducer step adds exactly the offsets of the new range, given that
      it starts no earlier than the last merged range. */
  lemma {:induction false} MergeStepCovers(m: seq<ParagraphRange>, r: ParagraphRange, x: int)
    requires m != [] ==> m[|m| - 1].from <= r.from
    ensures Covers(MergeInto(m, r), x) <==> Covers(m, x) || r.from <= x <= r.to
  {
    if m == [] {
      CoversSnoc(m, r, x);
    } else {
      var last := m[|m| - 1];
      if r.from <= last.to {
        var init := m[..|m| - 1];
        var grown := last.(to := Max(last.to, r.to));
        assert m == init + [last];
        assert MergeInto(m, r) == init + [grown];
        CoversSnoc(init, last, x);
        CoversSnoc(init, grown, x);
      } else {
        CoversSnoc(m, r, x);
      }
    }
  }

  /** Merging changes no offset's coverage: the merged ranges hold exactly
      the offsets the sorted ranges hold. */
  lemma {:induction false} MergeCovers(rs: seq<ParagraphRange>, x: int)
    requires SortedBy(rs, FromToLe) && Proper(rs)
    ensures Covers(Merge(rs), x) <==> Covers(rs, x)
    decreases |rs|
  {
    if rs != [] {
      var init, r := rs[..|rs| - 1], rs[|rs| - 1];
      SortedInit(rs);
      assert Proper(init) by {
        forall i | 0 <= i < |init| ensures init[i].from <= init[i].to {
          assert init[i] == rs[i];
        }
      }
      MergeCovers(init, x);
      MergeSeparated(init);
      if init != [] {
        assert FromToLe(init[|init| - 1], r);
      }
      MergeStepCovers(Merge(init), r, x);
      assert rs == init + [r];
      CoversSnoc(init, r, x);
    }
  }

  lemma {:induction false} MergeStepWithin(m: seq<ParagraphRange>, r: ParagraphRange, q: ParagraphRange)
    requires Within(q, m) || (q == r && (m != [] ==> m[|m| - 1].from <= r.from))
    ensures Within(q, MergeInto(m, r))
  {
    var m' := MergeInto(m, r);
    if Within(q, m) {
      var j :| 0 <= j < |m| && m[j].from <= q.from && q.to <= m[j].to;
      assert m'[j].from == m[j].from && m[j].to <= m'[j].to;
    } else if m == [] || r.from > m[|m| - 1].to {
      assert m'[|m'| - 1] == r;
    } else {
      assert m'[|m| - 1].from == m[|m| - 1].from;
    }
  }

  /** Every sorted range lies within one merged range. */
  lemma {:induction false} MergeContains(rs: seq<ParagraphRange>, i: nat)
    requires SortedBy(rs, FromToLe) && Proper(rs) && i < |rs|
    ensures Within(rs[i], Merge(rs))
    decreases |rs|
  {
    var init, r := rs[..|rs| - 1], rs[|rs| - 1];
    SortedInit(rs);
    assert Proper(init) by {
      forall k | 0 <= k < |init| ensures init[k].from <= init[k].to {
        assert init[k] == rs[k];
      }
    }
    if i < |init| {
      assert init[i] == rs[i];
      MergeContains(init, i);
    } else {
      MergeSeparated(init);
      if init != [] {
        assert FromToLe(init[|init| - 1], r);
      }
    }
    MergeStepWithin(Merge(init), r, rs[i]);
  }

  /** Every range is a span of whole lines. */
  predicate AllAligned(doc: string, rs: seq<ParagraphRange>) {
    forall i :: 0 <= i < |rs| ==> LineAligned(doc, rs[i])
  }

  /** Merging spans of whole lines gives spans of whole lines: every end of a
      merged range is an end of one of the ranges. */
  lemma {:induction false} MergeAligned(doc: string, rs: seq<ParagraphRange>)
    requires AllAligned(doc, rs)
    ensures AllAligned(doc, Merge(rs))
    decreases |rs|
  {
    if rs != [] {
      var init, r := rs[..|rs| - 1], rs[|rs| - 1];
      assert AllAligned(doc, init) by {
        forall k | 0 <= k < |init| ensures LineAligned(doc, init[k]) {
          assert init[k] == rs[k];
        }
      }
      MergeAligned(doc, init);
      assert LineAligned(doc, r);
    }
  }

  /** The change for one merged range: its text, toggled. */
  function ToggleChange(doc: string, r: ParagraphRange): Change
    requires r.from <= r.to <= |doc|
  {
    Change(r.from, r.to, ToggleAlertSelectionText(doc[r.from..r.to]))
  }

  /** `mergedRanges.map(...)` of lines 132-141. */
  function SelectionChanges(doc: string, merged: seq<ParagraphRange>): (cs: seq<Change>)
    requires AllAligned(doc, merged)
    ensures |cs| == |merged|
  {
    seq(|merged|, j requires 0 <= j < |merged| => ToggleChange(doc, merged[j]))
  }

  lemma {:induction false} NonEmptyFits(ranges: seq<SelectionRange>, n: nat)
    requires RangesFit(ranges, n)
    ensures RangesFit(NonEmptyRanges(ranges), n)
  {
    var r := NonEmptyRanges(ranges);
    forall i | 0 <= i < |r| ensures r[i].To() <= n {
      assert r[i] in ranges;
    }
  }

  /** The expanded ranges of the non-empty selection ranges, lines 97-114. */
  function ExpandedSelection(doc: string, tree: Tree, ranges: seq<SelectionRange>): seq<ParagraphRange>
    requires RangesFit(ranges, |doc|) && TreeFits(tree, |doc|)
  {
    NonEmptyFits(ranges, |doc|);
    ExpandAll(doc, tree, NonEmptyRanges(ranges))
  }

  lemma {:induction false} ExpandAllAligned(doc: string, tree: Tree, ranges: seq<SelectionRange>)
    requires RangesFit(ranges, |doc|) && TreeFits(tree, |doc|)
    ensures AllAligned(doc, ExpandAll(doc, tree, ranges))
  {
    forall i | 0 <= i < |ranges| ensures LineAligned(doc, ExpandAll(doc, tree, ranges)[i]) {
      ExpandAllAt(doc, tree, ranges, i);
      ExpandRangeSpec(doc, tree, ranges[i]);
    }
  }

  lemma {:induction false} SortedAligned(doc: string, rs: seq<ParagraphRange>)
    requires AllAligned(doc, rs)
    ensures AllAligned(doc, SortBy(rs, FromToLe))
    ensures SortedBy(SortBy(rs, FromToLe), FromToLe) && Proper(SortBy(rs, FromToLe))
    ensures forall r :: r in SortBy(rs, FromToLe) <==> r in rs
  {
    var sorted := SortBy(rs, FromToLe);
    FromToLeTotal();
    SortBySpec(rs, FromToLe);
    SameElements(rs, sorted);
    forall i | 0 <= i < |sorted| ensures LineAligned(doc, sorted[i]) {
      assert sorted[i] in rs;
      var k :| 0 <= k < |rs| && rs[k] == sorted[i];
    }
  }

  /** The expanded ranges of the non-empty selection ranges, sorted. */
  function SortedExpansion(doc: string, tree: Tree, ranges: seq<SelectionRange>): (sorted: seq<ParagraphRange>)
    requires RangesFit(ranges, |doc|) && TreeFits(tree, |doc|)
    ensures AllAligned(doc, sorted) && SortedBy(sorted, FromToLe) && Proper(sorted)
  {
    var nonEmpty := NonEmptyRanges(ranges);
    NonEmptyFits(ranges, |doc|);
    var expanded := ExpandedSelection(doc, tree, ranges);
    ExpandAllAligned(doc, tree, nonEmpty);
    SortedAligned(doc, expanded);
    SortBy(expanded, FromToLe)
  }

  /** The changes of the selection branch, lines 96-143. */
  function SelectionChangesOf(doc: string, tree: Tree, ranges: seq<SelectionRange>): seq<Change>
    requires RangesFit(ranges, |doc|) && TreeFits(tree, |doc|)
  {
    var sorted := SortedExpansion(doc, tree, ranges);
    MergeAligned(doc, sorted);
    SelectionChanges(doc, Merge(sorted))
  }

  /** The selection changes lie in the document in order without overlap,
      each replaces a span of whole lines by that text toggled. */
  lemma {:induction false} SelectionChangesFit(doc: string, tree: Tree, ranges: seq<SelectionRange>)
    requires RangesFit(ranges, |doc|) && TreeFits(tree, |doc|)
    ensures var cs := SelectionChangesOf(doc, tree, ranges);
      && ChangesFit(cs, |doc|)
      && forall k :: 0 <= k < |cs| ==>
           && LineAligned(doc, ParagraphRange(cs[k].from, cs[k].to))
           && cs[k].insert == ToggleAlertSelectionText(doc[cs[k].from..cs[k].to])
  {
    var sorted := SortedExpansion(doc, tree, ranges);
    var merged := Merge(sorted);
    MergeAligned(doc, sorted);
    MergeSeparated(sorted);
    var cs := SelectionChangesOf(doc, tree, ranges);
    assert cs == SelectionChanges(doc, merged);
    forall k | 0 <= k < |cs| ensures cs[k] == ToggleChange(doc, merged[k]) {
    }
  }

  lemma {:induction false} CoversSame(a: seq<ParagraphRange>, b: seq<ParagraphRange>, x: int)
    requires forall r :: r in a <==> r in b
    ensures Covers(a, x) <==> Covers(b, x)
  {
    if Covers(a, x) {
      var i :| 0 <= i < |a| && a[i].from <= x <= a[i].to;
      assert a[i] in b;
      var j :| 0 <= j < |b| && b[j] == a[i];
    }
    if Covers(b, x) {
      var i :| 0 <= i < |b| && b[i].from <= x <= b[i].to;
      assert b[i] in a;
      var j :| 0 <= j < |a| && a[j] == b[i];
    }
  }

  /** The stages of the selection branch, named. */
  lemma {:induction false} SelectionPipeline(doc: string, tree: Tree, ranges: seq<SelectionRange>)
    requires RangesFit(ranges, |doc|) && TreeFits(tree, |doc|)
    ensures var expanded := ExpandedSelection(doc, tree, ranges);
      var sorted := SortedExpansion(doc, tree, ranges);
      && sorted == SortBy(expanded, FromToLe)
      && (forall r :: r in sorted <==> r in expanded)
      && AllAligned(doc, Merge(sorted))
      && SelectionChangesOf(doc, tree, ranges) == SelectionChanges(doc, Merge(sorted))
  {
    NonEmptyFits(ranges, |doc|);
    var expanded := ExpandedSelection(doc, tree, ranges);
    ExpandAllAligned(doc, tree, NonEmptyRanges(ranges));
    SortedAligned(doc, expanded);
    MergeAligned(doc, SortedExpansion(doc, tree, ranges));
  }

  /** A non-empty selection range lies within its expansion. */
  lemma {:induction false} ExpandedHolds(doc: string, tree: Tree, ranges: seq<SelectionRange>, q: SelectionRange) returns (i: nat)
    requires RangesFit(ranges, |doc|) && TreeFits(tree, |doc|)
    requires q in ranges && !q.Empty()
    ensures var expanded := ExpandedSelection(doc, tree, ranges);
      i < |expanded| && expanded[i].from <= q.From() && q.To() <= expanded[i].to
  {
    var nonEmpty := NonEmptyRanges(ranges);
    NonEmptyFits(ranges, |doc|);
    i :| 0 <= i < |nonEmpty| && nonEmpty[i] == q;
    ExpandAllAt(doc, tree, nonEmpty, i);
    ExpandRangeSpec(doc, tree, q);
  }

  /** Every non-empty selection range lies within one change. */
  lemma {:induction false} SelectionChangesCover(doc: string, tree: Tree, ranges: seq<SelectionRange>, q: SelectionRange)
    requires RangesFit(ranges, |doc|) && TreeFits(tree, |doc|)
    requires q in ranges && !q.Empty()
    ensures var cs := SelectionChangesOf(doc, tree, ranges);
      exists k :: 0 <= k < |cs| && cs[k].from <= q.From() && q.To() <= cs[k].to
  {
    var expanded := ExpandedSelection(doc, tree, ranges);
    var sorted := SortedExpansion(doc, tree, ranges);
    var merged := Merge(sorted);
    SelectionPipeline(doc, tree, ranges);
    var i := ExpandedHolds(doc, tree, ranges, q);
    var e := expanded[i];
    assert e in sorted;
    var s :| 0 <= s < |sorted| && sorted[s] == e;
    MergeContains(sorted, s);
    var k :| 0 <= k < |merged| && merged[k].from <= e.from && e.to <= merged[k].to;
    SelectionChangesSpans(doc, merged);
    var cs := SelectionChangesOf(doc, tree, ranges);
    assert cs[k].from == merged[k].from && cs[k].to == merged[k].to;
  }

  /** The changes span the ranges, one for one. */
  predicate Spans(cs: seq<Change>, rs: seq<ParagraphRange>) {
    |cs| == |rs| && forall k :: 0 <= k < |cs| ==> cs[k].from == rs[k].from && cs[k].to == rs[k].to
  }

  lemma {:induction false} SelectionChangesSpans(doc: string, merged: seq<ParagraphRange>)
    requires AllAligned(doc, merged)
    ensures Spans(SelectionChanges(doc, merged), merged)
  {
    var cs := SelectionChanges(doc, merged);
    forall k | 0 <= k < |cs| ensures cs[k].from == merged[k].from && cs[k].to == merged[k].to {
      assert cs[k] == ToggleChange(doc, merged[k]);
    }
  }

  lemma {:induction false} ChangesCoverMerged(cs: seq<Change>, merged: seq<ParagraphRange>, x: int)
    requires Spans(cs, merged)
    ensures (exists k :: 0 <= k < |cs| && cs[k].from <= x <= cs[k].to) <==> Covers(merged, x)
  {
    if exists k :: 0 <= k < |cs| && cs[k].from <= x <= cs[k].to {
      var k :| 0 <= k < |cs| && cs[k].from <= x <= cs[k].to;
      assert merged[k].from <= x <= merged[k].to;
    }
    if Covers(merged, x) {
      var k :| 0 <= k < |merged| && merged[k].from <= x <= merged[k].to;
      assert cs[k].from <= x <= cs[k].to;
    }
  }

  /** The changes hold exactly the offsets the expanded ranges hold. */
  lemma {:induction false} SelectionChangesExact(doc: string, tree: Tree, ranges: seq<SelectionRange>, x: int)
    requires RangesFit(ranges, |doc|) && TreeFits(tree, |doc|)
    ensures var cs := SelectionChangesOf(doc, tree, ranges);
      (exists k :: 0 <= k < |cs| && cs[k].from <= x <= cs[k].to) <==> Covers(ExpandedSelection(doc, tree, ranges), x)
  {
    var expanded := ExpandedSelection(doc, tree, ranges);
    var sorted := SortedExpansion(doc, tree, ranges);
    SelectionPipeline(doc, tree, ranges);
    CoversSame(sorted, expanded, x);
    MergeCovers(sorted, x);
    SelectionChangesSpans(doc, Merge(sorted));
    ChangesCoverMerged(SelectionChangesOf(doc, tree, ranges), Merge(sorted), x);
  }

  /** The chains the blockquote walk visits: for each probe, the node
      `resolveInner(position, -1)` and its ancestors. */
  function ParentChains(tree: Tree, probes: seq<int>): seq<Node>
    decreases |probes|
  {
    if probes == [] then [] else ParentChains(tree, probes[..|probes| - 1]) + tree.resolveInner(probes[|probes| - 1], -1)
  }

  lemma {:induction false} ParentChainsAppend(tree: Tree, a: seq<int>, b: seq<int>)
    ensures ParentChains(tree, a + b) == ParentChains(tree, a) + ParentChains(tree, b)
    decreases |b|
  {
    if b == [] {
      assert a + b == a;
    } else {
      var init := b[..|b| - 1];
      assert (a + b)[..|a + b| - 1] == a + init;
      ParentChainsAppend(tree, a, init);
    }
  }

  lemma ChainFits(tree: Tree, p: int, n: nat)
    requires TreeFits(tree, n)
    ensures NodesFit(tree.resolveInner(p, -1), n)
  {
  }

  lemma {:induction false} ParentChainsFit(tree: Tree, probes: seq<int>, n: nat)
    requires TreeFits(tree, n)
    ensures NodesFit(ParentChains(tree, probes), n)
    decreases |probes|
  {
    if probes != [] {
      var init := probes[..|probes| - 1];
      ParentChainsFit(tree, init, n);
      var a, b := ParentChains(tree, init), tree.resolveInner(probes[|probes| - 1], -1);
      forall i | 0 <= i < |a + b| ensures NodeFits((a + b)[i], n) {
        if i >= |a| {
          ChainFits(tree, probes[|probes| - 1], n);
          assert (a + b)[i] == b[i - |a|];
        } else {
          assert (a + b)[i] == a[i];
        }
      }
    }
  }

  /** What the walk does at a node: for a blockquote, the marker change
      of its start line, if that line is an alert title line. The walk only
      meets nodes inside the document; the bound only makes `lineAt`
      defined. */
  function QuoteChangeAt(doc: string, node: Node): (c: Option<Change>)
    ensures c.Some? ==> c.value.from <= c.value.to <= |doc|
  {
    if IsNamed(node, "blockquote") && NodeFits(node, |doc|) then MarkerChange(LineAt(doc, node.from))
    else None
  }

  /** The walk's step function on a document. */
  function QuoteChanges(doc: string): Node -> Option<Change> {
    node => QuoteChangeAt(doc, node)
  }

  /** The change of the first node of the walk at which `at` gives one. */
  function FirstChange(at: Node -> Option<Change>, nodes: seq<Node>): Option<Change>
    decreases |nodes|
  {
    if nodes == [] then None
    else
      var r := FirstChange(at, nodes[..|nodes| - 1]);
      if r.Some? then r else at(nodes[|nodes| - 1])
  }

  /** The walk toggles at no node exactly when `at` gives no change at any
      node; otherwise it toggles at the first node that gives one. */
  lemma {:induction false} FirstChangeSpec(at: Node -> Option<Change>, nodes: seq<Node>)
    ensures var r := FirstChange(at, nodes);
      && (r.None? <==> forall i :: 0 <= i < |nodes| ==> at(nodes[i]).None?)
      && (r.Some? ==> exists i :: 0 <= i < |nodes| && r == at(nodes[i]) && (forall j :: 0 <= j < i ==> at(nodes[j]).None?))
    decreases |nodes|
  {
    if nodes != [] {
      var init := nodes[..|nodes| - 1];
      FirstChangeSpec(at, init);
      var r := FirstChange(at, init);
      if r.Some? {
        var i :| 0 <= i < |init| && r == at(init[i]) && forall j :: 0 <= j < i ==> at(init[j]).None?;
        assert nodes[i] == init[i];
        forall j | 0 <= j < i ensures at(nodes[j]).None? {
          assert nodes[j] == init[j];
        }
      } else {
        forall j | 0 <= j < |init| ensures at(nodes[j]).None? {
          assert nodes[j] == init[j];
        }
      }
    }
  }

  lemma {:induction false} FirstChangeAppend(at: Node -> Option<Change>, a: seq<Node>, b: seq<Node>)
    ensures FirstChange(at, a + b) == if FirstChange(at, a).Some? then FirstChange(at, a) else FirstChange(at, b)
    decreases |b|
  {
    if b == [] {
      assert a + b == a;
    } else {
      var init := b[..|b| - 1];
      assert (a + b)[..|a + b| - 1] == a + init;
      assert (a + b)[|a + b| - 1] == b[|b| - 1];
      FirstChangeAppend(at, a, init);
    }
  }

  lemma FirstChangeOne(at: Node -> Option<Change>, node: Node)
    ensures FirstChange(at, [node]) == at(node)
  {
    assert [node][..0] == [];
  }

  /** Every change the walk finds on a document lies in it. */
  lemma {:induction false} FirstQuoteChangeFits(doc: string, nodes: seq<Node>)
    ensures var r := FirstChange(QuoteChanges(doc), nodes);
      r.Some? ==> r.value.from <= r.value.to <= |doc|
  {
    var r := FirstChange(QuoteChanges(doc), nodes);
    FirstChangeSpec(QuoteChanges(doc), nodes);
    if r.Some? {
      var i :| 0 <= i < |nodes| && r == QuoteChanges(doc)(nodes[i]);
      assert r == QuoteChangeAt(doc, nodes[i]);
    }
  }

  /** The last blockquote of the walk: the outermost one it met. */
  function LastNamed(nodes: seq<Node>, name: string): Option<Node>
    decreases |nodes|
  {
    if nodes == [] then None
    else if IsNamed(nodes[|nodes| - 1], name) then Some(nodes[|nodes| - 1])
    else LastNamed(nodes[..|nodes| - 1], name)
  }

  /** There is no last named node exactly when no node has the name;
      otherwise it is a named node with no named node after it. */
  lemma {:induction false} LastNamedSpec(nodes: seq<Node>, name: string)
    ensures var r := LastNamed(nodes, name);
      && (r.None? <==> forall i :: 0 <= i < |nodes| ==> !IsNamed(nodes[i], name))
      && (r.Some? ==> exists i :: 0 <= i < |nodes| && nodes[i] == r.value && IsNamed(nodes[i], name)
                                && forall j :: i < j < |nodes| ==> !IsNamed(nodes[j], name))
    decreases |nodes|
  {
    if nodes != [] && !IsNamed(nodes[|nodes| - 1], name) {
      var init := nodes[..|nodes| - 1];
      LastNamedSpec(init, name);
      assert forall i :: 0 <= i < |init| ==> init[i] == nodes[i];
      var r := LastNamed(init, name);
      if r.Some? {
        var i :| 0 <= i < |init| && init[i] == r.value && IsNamed(init[i], name)
                 && forall j :: i < j < |init| ==> !IsNamed(init[j], name);
        assert nodes[i] == r.value && IsNamed(nodes[i], name);
        assert forall j :: i < j < |nodes| ==> !IsNamed(nodes[j], name);
      }
    }
  }

  /** `outermostBlockquoteFrom` after walking `nodes`, starting from
      `outer`. */
  function OuterFrom(nodes: seq<Node>, outer: Option<int>): Option<int> {
    match LastNamed(nodes, "blockquote")
    case Some(n) => Some(n.from)
    case None => outer
  }

  lemma {:induction false} LastNamedAppend(a: seq<Node>, b: seq<Node>, name: string)
    ensures LastNamed(a + b, name) == if LastNamed(b, name).Some? then LastNamed(b, name) else LastNamed(a, name)
    decreases |b|
  {
    if b == [] {
      assert a + b == a;
    } else {
      var init := b[..|b| - 1];
      assert (a + b)[..|a + b| - 1] == a + init;
      assert (a + b)[|a + b| - 1] == b[|b| - 1];
      LastNamedAppend(a, init, name);
    }
  }

  lemma {:induction false} OuterFromAppend(a: seq<Node>, b: seq<Node>, outer: Option<int>)
    ensures OuterFrom(a + b, outer) == OuterFrom(b, OuterFrom(a, outer))
  {
    LastNamedAppend(a, b, "blockquote");
  }

  /** One step of the walk at a blockquote: toggle the marker of its start
      line, if that line is an alert title line. */
  method ToggleAtNode(view: EditorView, node: Node) returns (toggled: bool)
    modifies view
    ensures var c := QuoteChangeAt(old(view.doc), node);
      && toggled == c.Some?
      && (toggled ==> ChangesFit([c.value], |old(view.doc)|) && view.doc == ApplyChanges(old(view.doc), [c.value]))
    ensures !toggled ==> view.doc == old(view.doc)
    ensures view.selection == if toggled then ClampSelection(old(view.selection), |view.doc|) else old(view.selection)
    ensures old(view.Valid()) ==> view.Valid()
  {
    if IsNamed(node, "blockquote") && NodeFits(node, |view.doc|) {
      var blockquoteStartLine := LineAt(view.doc, node.from);
      assert QuoteChangeAt(view.doc, node) == MarkerChange(blockquoteStartLine);
      toggled := ToggleAlertMarkerOnLine(view, blockquoteStartLine);
    } else {
      toggled := false;
    }
  }

  /** How the walk's two results grow by one node. */
  lemma WalkStep(at: Node -> Option<Change>, chain: seq<Node>, j: nat, outer: Option<int>)
    requires j < |chain|
    ensures FirstChange(at, chain[..j + 1]) == if FirstChange(at, chain[..j]).Some? then FirstChange(at, chain[..j]) else at(chain[j])
    ensures OuterFrom(chain[..j + 1], outer) == if IsNamed(chain[j], "blockquote") then Some(chain[j].from) else OuterFrom(chain[..j], outer)
  {
    assert chain[..j + 1] == chain[..j] + [chain[j]];
    OuterFromAppend(chain[..j], [chain[j]], outer);
    FirstChangeAppend(at, chain[..j], [chain[j]]);
    FirstChangeOne(at, chain[j]);
    assert [chain[j]][..0] == [];
  }

  /** The walk stops at the first node that gives a change. */
  lemma WalkFound(at: Node -> Option<Change>, chain: seq<Node>, j: nat)
    requires j < |chain| && FirstChange(at, chain[..j]).None? && at(chain[j]).Some?
    ensures FirstChange(at, chain) == at(chain[j])
  {
    var head, tail := chain[..j + 1], chain[j + 1..];
    assert FirstChange(at, head) == at(chain[j]) by {
      WalkStep(at, chain, j, None);
    }
    assert FirstChange(at, head + tail) == at(chain[j]) by {
      FirstChangeAppend(at, head, tail);
    }
    assert head + tail == chain;
  }

  /** The inner loop of the walk over one chain: it toggles the marker of
      the first blockquote that starts on an alert title line, and
      otherwise remembers the start of the last blockquote it met. */
  method WalkChain(view: EditorView, chain: seq<Node>, outer: Option<int>) returns (toggled: bool, outermost: Option<int>)
    modifies view
    ensures var c := FirstChange(QuoteChanges(old(view.doc)), chain);
      && toggled == c.Some?
      && (toggled ==> ChangesFit([c.value], |old(view.doc)|) && view.doc == ApplyChanges(old(view.doc), [c.value]))
    ensures !toggled ==> view.doc == old(view.doc) && outermost == OuterFrom(chain, outer)
    ensures view.selection == if toggled then ClampSelection(old(view.selection), |view.doc|) else old(view.selection)
    ensures old(view.Valid()) ==> view.Valid()
  {
    var at := QuoteChanges(view.doc);
    outermost := outer;
    for j := 0 to |chain|
      invariant view.doc == old(view.doc) && view.selection == old(view.selection)
      invariant FirstChange(at, chain[..j]).None?
      invariant outermost == OuterFrom(chain[..j], outer)
    {
      var node := chain[j];
      WalkStep(at, chain, j, outer);
      if IsNamed(node, "blockquote") {
        outermost := Some(node.from);
        var nodeToggled := ToggleAtNode(view, node);
        if nodeToggled {
          WalkFound(at, chain, j);
          return true, outermost;
        }
      }
    }
    assert chain[..|chain|] == chain;
    return false, outermost;
  }

  /** The chains of the first `i + 1` probes extend those of the first `i`. */
  lemma ParentChainsStep(tree: Tree, probes: seq<int>, i: nat)
    requires i < |probes|
    ensures ParentChains(tree, probes[..i + 1]) == ParentChains(tree, probes[..i]) + tree.resolveInner(probes[i], -1)
  {
    assert probes[..i + 1][..i] == probes[..i];
  }

  /** The walk over all chains stops in the first chain that gives a change. */
  lemma ChainFound(at: Node -> Option<Change>, tree: Tree, probes: seq<int>, i: nat)
    requires i < |probes|
    requires FirstChange(at, ParentChains(tree, probes[..i])).None?
    requires FirstChange(at, tree.resolveInner(probes[i], -1)).Some?
    ensures FirstChange(at, ParentChains(tree, probes)) == FirstChange(at, tree.resolveInner(probes[i], -1))
  {
    ParentChainsSplit(tree, probes, i);
    FirstChangeMiddle(at, ParentChains(tree, probes[..i]), tree.resolveInner(probes[i], -1), ParentChains(tree, probes[i + 1..]));
  }

  /** The chains of all probes are those before probe `i`, its own chain,
      and those after it. */
  lemma {:induction false} ParentChainsSplit(tree: Tree, probes: seq<int>, i: nat)
    requires i < |probes|
    ensures ParentChains(tree, probes) == ParentChains(tree, probes[..i]) + tree.resolveInner(probes[i], -1) + ParentChains(tree, probes[i + 1..])
  {
    var head, tail := probes[..i + 1], probes[i + 1..];
    assert head + tail == probes;
    ParentChainsStep(tree, probes, i);
    ParentChainsAppend(tree, head, tail);
  }

  /** A change found in the middle part, with none before it, is the one
      found in the whole. */
  lemma {:induction false} FirstChangeMiddle(at: Node -> Option<Change>, a: seq<Node>, c: seq<Node>, b: seq<Node>)
    requires FirstChange(at, a).None? && FirstChange(at, c).Some?
    ensures FirstChange(at, a + c + b) == FirstChange(at, c)
  {
    var ac := a + c;
    FirstChangeAppend(at, a, c);
    FirstChangeAppend(at, ac, b);
  }

  /** The walk of lines 170-184: over the probes, each with the chain from
      `resolveInner(position, -1)` up. It toggles at the first blockquote of
      all chains that starts on an alert title line; if there is none, it
      changes nothing and yields the start of the last blockquote met. */
  method WalkBlockquotes(view: EditorView, tree: Tree, probes: seq<int>) returns (toggled: bool, outermost: Option<int>)
    modifies view
    ensures var c := FirstChange(QuoteChanges(old(view.doc)), ParentChains(tree, probes));
      && toggled == c.Some?
      && (toggled ==> ChangesFit([c.value], |old(view.doc)|) && view.doc == ApplyChanges(old(view.doc), [c.value]))
    ensures !toggled ==> view.doc == old(view.doc) && outermost == OuterFrom(ParentChains(tree, probes), None)
    ensures view.selection == if toggled then ClampSelection(old(view.selection), |view.doc|) else old(view.selection)
    ensures old(view.Valid()) ==> view.Valid()
  {
    var at := QuoteChanges(view.doc);
    outermost := None;
    for i := 0 to |probes|
      invariant view.doc == old(view.doc) && view.selection == old(view.selection)
      invariant FirstChange(at, ParentChains(tree, probes[..i])).None?
      invariant outermost == OuterFrom(ParentChains(tree, probes[..i]), None)
    {
      var chain := tree.resolveInner(probes[i], -1);
      ParentChainsStep(tree, probes, i);
      OuterFromAppend(ParentChains(tree, probes[..i]), chain, None);
      FirstChangeAppend(at, ParentChains(tree, probes[..i]), chain);
      var chainToggled;
      chainToggled, outermost := WalkChain(view, chain, outermost);
      if chainToggled {
        ChainFound(at, tree, probes, i);
        return true, outermost;
      }
    }
    assert probes[..|probes|] == probes;
    return false, outermost;
  }

  /** The blockquote walk starts from the cursor's probes, found with the
      `>` line prefix. */
  function WalkedChains(doc: string, tree: Tree, pos: nat): seq<Node>
    requires pos <= |doc|
  {
    ParentChains(tree, ProbePositions(doc, pos, Some(BlockquoteLinePrefix)))
  }

  /** The start of the outermost blockquote the walk met lies in the
      document. */
  lemma {:induction false} OuterFromFits(nodes: seq<Node>, n: nat)
    requires NodesFit(nodes, n)
    ensures OuterFrom(nodes, None).Some? ==> 0 <= OuterFrom(nodes, None).value <= n
  {
    var r := LastNamed(nodes, "blockquote");
    LastNamedSpec(nodes, "blockquote");
    if r.Some? {
      var i :| 0 <= i < |nodes| && nodes[i] == r.value;
      assert NodeFits(nodes[i], n);
    }
  }

  /** The paragraph the cursor lies in, when the tree has one there, lies in
      the document. */
  lemma ParagraphAtFits(doc: string, tree: Tree, pos: nat)
    requires pos <= |doc| && TreeFits(tree, |doc|)
    ensures var node := ParagraphAt(doc, tree, pos, Some(BlockquoteLinePrefix));
      node.Some? ==> NodeFits(node.value, |doc|)
  {
    var probes := ProbePositions(doc, pos, Some(BlockquoteLinePrefix));
    ParagraphAtSpec(doc, tree, pos, Some(BlockquoteLinePrefix));
    var node := ParagraphAt(doc, tree, pos, Some(BlockquoteLinePrefix));
    if node.Some? {
      var i :| 0 <= i < |probes| && node.value in ChainsAt(tree, probes[i]);
      var chain := ChainsAt(tree, probes[i]);
      var k :| 0 <= k < |chain| && chain[k] == node.value;
      if k < |tree.resolveInner(probes[i], -1)| {
        ChainFits(tree, probes[i], |doc|);
        assert chain[k] == tree.resolveInner(probes[i], -1)[k];
      } else {
        assert chain[k] == tree.resolveInner(probes[i], 1)[k - |tree.resolveInner(probes[i], -1)|];
      }
    }
  }

  /** The text a blank line becomes, line 150. */
  const BlankAlertLine: string := "> [!NOTE] "

  /** On a blank line, lines 149-161: the line becomes `> [!NOTE] ` and the
      cursor goes after it. */
  function BlankLineTransaction(line: Line): Transaction {
    Transaction([Change(line.from, line.to, BlankAlertLine)], Some(line.from + |BlankAlertLine|))
  }

  /** Lines 186-198: an alert title line with the blockquote's own prefix,
      inserted before the line the blockquote starts on; nothing when that
      line has no blockquote prefix. */
  function InsertAboveChange(doc: string, outer: nat): Option<Change>
    requires outer <= |doc|
  {
    var line := LineAt(doc, outer);
    match BlockquotePrefix(line.text)
    case Some(prefix) => Some(Change(line.from, line.from, CreateAlertLine(prefix) + "\n"))
    case None => None
  }

  /** The insertion above the outermost blockquote the walk met, if any. */
  function InsertAbove(doc: string, tree: Tree, pos: nat): Option<Change>
    requires pos <= |doc| && TreeFits(tree, |doc|)
  {
    var walked := WalkedChains(doc, tree, pos);
    match OuterFrom(walked, None)
    case None => None
    case Some(outer) =>
      ParentChainsFit(tree, ProbePositions(doc, pos, Some(BlockquoteLinePrefix)), |doc|);
      OuterFromFits(walked, |doc|);
      InsertAboveChange(doc, outer)
  }

  /** What lines 200-225 toggle: the paragraph the tree has around the
      cursor, widened to whole lines, or the cursor's line when there is
      none. */
  function ParagraphOrLine(doc: string, tree: Tree, pos: nat): (r: ParagraphRange)
    requires pos <= |doc| && TreeFits(tree, |doc|)
    ensures r.from <= r.to <= |doc|
  {
    match ParagraphAt(doc, tree, pos, Some(BlockquoteLinePrefix))
    case Some(node) =>
      ParagraphAtFits(doc, tree, pos);
      GetParagraphLineRange(doc, node)
    case None =>
      var line := LineAt(doc, pos);
      ParagraphRange(line.from, line.to)
  }

  /** Lines 200-225: the toggle of that range. */
  function ParagraphChange(doc: string, tree: Tree, pos: nat): Change
    requires pos <= |doc| && TreeFits(tree, |doc|)
  {
    ToggleChange(doc, ParagraphOrLine(doc, tree, pos))
  }

  /** Lines 165-225, once the cursor's line is neither blank nor an alert
      title line: the marker change of the first alert blockquote the walk
      meets, else the insertion above the outermost blockquote it met, else
      the paragraph toggle. */
  function BlockquoteChange(doc: string, tree: Tree, pos: nat): Change
    requires pos <= |doc| && TreeFits(tree, |doc|)
  {
    var found := FirstChange(QuoteChanges(doc), WalkedChains(doc, tree, pos));
    if found.Some? then found.value
    else
      var above := InsertAbove(doc, tree, pos);
      if above.Some? then above.value else ParagraphChange(doc, tree, pos)
  }

  /** The transaction of the cursor branch, lines 147-225, for a cursor at
      `pos`: the blank line, the alert title line under the cursor, or what
      the blockquote walk decides. */
  function CursorTransaction(doc: string, tree: Tree, pos: nat): Transaction
    requires pos <= |doc| && TreeFits(tree, |doc|)
  {
    var line := LineAt(doc, pos);
    if Trim(line.text) == "" then BlankLineTransaction(line)
    else if MarkerChange(line).Some? then Transaction([MarkerChange(line).value], None)
    else Transaction([BlockquoteChange(doc, tree, pos)], None)
  }

  /** Every change of the cursor branch lies in the document. */
  lemma BlockquoteChangeFits(doc: string, tree: Tree, pos: nat)
    requires pos <= |doc| && TreeFits(tree, |doc|)
    ensures var c := BlockquoteChange(doc, tree, pos);
      c.from <= c.to <= |doc|
  {
    FirstQuoteChangeFits(doc, WalkedChains(doc, tree, pos));
  }

  /** Lines 200-225. */
  method ParagraphCommand(view: EditorView, tree: Tree, cursorPos: nat)
    requires cursorPos <= |view.doc| && TreeFits(tree, |view.doc|)
    modifies view
    ensures var c := ParagraphChange(old(view.doc), tree, cursorPos);
      && ChangesFit([c], |old(view.doc)|)
      && view.doc == ApplyChanges(old(view.doc), [c])
    ensures view.selection == ClampSelection(old(view.selection), |view.doc|)
    ensures old(view.Valid()) ==> view.Valid()
  {
    var doc := view.doc;
    var paragraphNode := FindParagraphNodeAt(doc, tree, cursorPos, Some(BlockquoteLinePrefix));
    var change;
    if paragraphNode.Some? {
      ParagraphAtFits(doc, tree, cursorPos);
      var paragraphRange := GetParagraphLineRange(doc, paragraphNode.value);
      var text := doc[paragraphRange.from..paragraphRange.to];
      var updated := ToggleAlertSelectionText(text);
      change := Change(paragraphRange.from, paragraphRange.to, updated);
    } else {
      var fallbackLine := LineAt(doc, cursorPos);
      var updated := ToggleAlertSelectionText(fallbackLine.text);
      change := Change(fallbackLine.from, fallbackLine.to, updated);
    }
    OneChangeFits(doc, change);
    view.Dispatch(Transaction([change], None));
  }

  /** Lines 165-225. */
  method BlockquoteCommand(view: EditorView, tree: Tree, cursorPos: nat)
    requires cursorPos <= |view.doc| && TreeFits(tree, |view.doc|)
    modifies view
    ensures var c := BlockquoteChange(old(view.doc), tree, cursorPos);
      && ChangesFit([c], |old(view.doc)|)
      && view.doc == ApplyChanges(old(view.doc), [c])
    ensures view.selection == ClampSelection(old(view.selection), |view.doc|)
    ensures old(view.Valid()) ==> view.Valid()
  {
    var doc := view.doc;
    var probes := GetProbePositions(doc, cursorPos, Some(BlockquoteLinePrefix));
    var walkToggled, outermostBlockquoteFrom := WalkBlockquotes(view, tree, probes);
    if walkToggled {
      return;
    }
    if outermostBlockquoteFrom.Some? {
      ParentChainsFit(tree, probes, |doc|);
      OuterFromFits(ParentChains(tree, probes), |doc|);
      var blockquoteStartLine := LineAt(doc, outermostBlockquoteFrom.value);
      var prefix := BlockquotePrefix(blockquoteStartLine.text);
      if prefix.Some? {
        var insertionPoint := blockquoteStartLine.from;
        var insertionText := CreateAlertLine(prefix.value) + "\n";
        var change := Change(insertionPoint, insertionPoint, insertionText);
        OneChangeFits(doc, change);
        view.Dispatch(Transaction([change], None));
        return;
      }
    }
    ParagraphCommand(view, tree, cursorPos);
  }

  /** Lines 147-225: the cursor branch of the command. */
  method CursorCommand(view: EditorView, tree: Tree, cursorPos: nat)
    requires cursorPos <= |view.doc| && TreeFits(tree, |view.doc|)
    modifies view
    ensures var tr := CursorTransaction(old(view.doc), tree, cursorPos);
      && ChangesFit(tr.changes, |old(view.doc)|)
      && view.doc == ApplyChanges(old(view.doc), tr.changes)
      && view.selection == if tr.cursor.Some? then Cursor(tr.cursor.value) else ClampSelection(old(view.selection), |view.doc|)
    ensures old(view.Valid()) ==> view.Valid()
  {
    var doc := view.doc;
    var cursorLine := LineAt(doc, cursorPos);
    if Trim(cursorLine.text) == "" {
      var insertionText := BlankAlertLine;
      var selectionPos := cursorLine.from + |insertionText|;
      var change := Change(cursorLine.from, cursorLine.to, insertionText);
      OneChangeFits(doc, change);
      ApplyOne(doc, change);
      view.Dispatch(Transaction([change], Some(selectionPos)));
      return;
    }
    var lineToggled := ToggleAlertMarkerOnLine(view, cursorLine);
    if lineToggled {
      return;
    }
    BlockquoteCommand(view, tree, cursorPos);
  }

  /** Lines 99-145: the selection branch of the command. */
  method SelectionCommand(view: EditorView, tree: Tree)
    requires view.Valid() && TreeFits(tree, |view.doc|)
    modifies view
    ensures var cs := SelectionChangesOf(old(view.doc), tree, old(view.selection).ranges);
      && ChangesFit(cs, |old(view.doc)|)
      && view.doc == ApplyChanges(old(view.doc), cs)
    ensures view.selection == ClampSelection(old(view.selection), |view.doc|)
    ensures view.Valid()
  {
    var doc := view.doc;
    var ranges := view.selection.ranges;
    assert RangesFit(ranges, |doc|);
    var nonEmptyRanges := NonEmptyRanges(ranges);
    NonEmptyFits(ranges, |doc|);
    var expandedRanges := ExpandRanges(doc, tree, nonEmptyRanges);
    var sorted := SortBy(expandedRanges, FromToLe);
    var mergedRanges := MergeRanges(sorted);
    SelectionPipeline(doc, tree, ranges);
    SelectionChangesFit(doc, tree, ranges);
    var changes := SelectionChanges(doc, mergedRanges);
    view.Dispatch(Transaction(changes, None));
  }

  /** What the command dispatches: the selection branch when some range is
      not empty, the cursor branch at the main range's head otherwise. */
  function InsertAlertTransaction(doc: string, sel: Selection, tree: Tree): Transaction
    requires SelectionFits(sel, |doc|) && TreeFits(tree, |doc|)
  {
    if NonEmptyRanges(sel.ranges) != [] then Transaction(SelectionChangesOf(doc, tree, sel.ranges), None)
    else CursorTransaction(doc, tree, sel.ranges[sel.mainIndex].head)
  }

  /** The command `createInsertAlertCommand` returns, lines 93-227: it
      always reports that it handled the key, and dispatches the
      transaction above. */
  method InsertAlert(view: EditorView, tree: Tree) returns (handled: bool)
    requires view.Valid() && TreeFits(tree, |view.doc|)
    modifies view
    ensures handled
    ensures var tr := InsertAlertTransaction(old(view.doc), old(view.selection), tree);
      && ChangesFit(tr.changes, |old(view.doc)|)
      && view.doc == ApplyChanges(old(view.doc), tr.changes)
      && view.selection == if tr.cursor.Some? then Cursor(tr.cursor.value) else ClampSelection(old(view.selection), |view.doc|)
    ensures view.Valid()
  {
    var ranges := view.selection.ranges;
    var nonEmptyRanges := NonEmptyRanges(ranges);
    if |nonEmptyRanges| > 0 {
      SelectionCommand(view, tree);
      return true;
    }
    var cursorPos := ranges[view.selection.mainIndex].head;
    CursorCommand(view, tree, cursorPos);
    return true;
  }

  /** Text without line feeds put in place of a whole line is the line at
      its own end. */
  lemma {:induction false} SplicedLine(doc: string, from: nat, to: nat, text: string)
    requires from <= to <= |doc| && '\n' !in text
    requires from == 0 || doc[from - 1] == '\n'
    requires to == |doc| || doc[to] == '\n'
    ensures var doc' := doc[..from] + text + doc[to..];
      LineAt(doc', from + |text|) == Line(from, from + |text|, text)
  {
    var doc' := doc[..from] + text + doc[to..];
    var e := from + |text|;
    assert AllIn(doc', from, e, NotLineFeed) by {
      forall x | from <= x < e ensures InClass(doc'[x], NotLineFeed) {
        assert doc'[x] == text[x - from];
      }
    }
    if e < |doc'| {
      assert doc'[e] == doc[to];
    }
    if 0 < from {
      assert doc'[from - 1] == doc[from - 1];
    }
    SpanFromIs(doc', e, e, NotLineFeed);
    SpanBackIs(doc', from, e, NotLineFeed);
    assert doc'[from..e] == text;
  }

  lemma BlankCuts()
    ensures CutsOk(BlankAlertLine, Cuts(0, 2, 8, 10))
  {
  }

  lemma BlankParts()
    ensures PartsAt(BlankAlertLine, Cuts(0, 2, 8, 10)) == TitleLineParts("", " ", "NOTE", " ", "")
  {
    assert BlankAlertLine[4..8] == "NOTE";
  }

  lemma BlankValue()
    ensures TypeOfToken("NOTE") == Some(Note) && Interpret(TitleLineParts("", " ", "NOTE", " ", "")) == BareAlert(Note, TextRange(2, 9))
  {
  }

  /** `> [!NOTE] `: a bare note alert whose marker spans 2..9; the space
      after it is no title. */
  lemma ExampleBlank()
    ensures ParseTitleLine(BlankAlertLine) == BareAlert(Note, TextRange(2, 9))
  {
    BlankCuts();
    BlankParts();
    BlankValue();
    ParseExample(BlankAlertLine, Cuts(0, 2, 8, 10), TitleLineParts("", " ", "NOTE", " ", ""), BareAlert(Note, TextRange(2, 9)));
  }

  /** `tr` replaces the whole `line` by `> [!NOTE] `, a note alert title
      line, and puts the cursor at the end of the new line. */
  predicate ReplacesBlankLine(doc: string, line: Line, tr: Transaction)
    requires LineOf(doc, line)
  {
    var doc' := doc[..line.from] + BlankAlertLine + doc[line.to..];
    && ChangesFit(tr.changes, |doc|) && ApplyChanges(doc, tr.changes) == doc'
    && tr.cursor.Some? && tr.cursor.value == line.from + |BlankAlertLine|
    && LineAt(doc', line.from + |BlankAlertLine|) == Line(line.from, line.from + |BlankAlertLine|, BlankAlertLine)
    && ParseTitleLine(LineAt(doc', line.from + |BlankAlertLine|).text) == BareAlert(Note, TextRange(2, 9))
  }

  /** On a blank line (only whitespace) the command replaces the line by
      `> [!NOTE] ` and leaves the cursor at its end. */
  lemma BlankLineOutcome(doc: string, tree: Tree, pos: nat)
    requires pos <= |doc| && TreeFits(tree, |doc|) && Trim(LineAt(doc, pos).text) == ""
    ensures ReplacesBlankLine(doc, LineAt(doc, pos), CursorTransaction(doc, tree, pos))
  {
    var line := LineAt(doc, pos);
    BlankBranch(doc, tree, pos);
    BlankLineReplaced(doc, line, CursorTransaction(doc, tree, pos));
  }

  lemma BlankBranch(doc: string, tree: Tree, pos: nat)
    requires pos <= |doc| && TreeFits(tree, |doc|) && Trim(LineAt(doc, pos).text) == ""
    ensures CursorTransaction(doc, tree, pos) == BlankLineTransaction(LineAt(doc, pos))
  {
  }

  lemma BlankLineReplaced(doc: string, line: Line, tr: Transaction)
    requires LineOf(doc, line) && (line.from == 0 || doc[line.from - 1] == '\n') && (line.to == |doc| || doc[line.to] == '\n')
    requires tr == BlankLineTransaction(line)
    ensures ReplacesBlankLine(doc, line, tr)
  {
    BlankHasNoLineFeed();
    ReplaceLine(doc, line.from, line.to, BlankAlertLine);
    ExampleBlank();
  }


  lemma BlankHasNoLineFeed()
    ensures '\n' !in BlankAlertLine
  {
  }

  /** One change replacing a whole line by text without line feeds. */
  lemma ReplaceLine(doc: string, from: nat, to: nat, text: string)
    requires from <= to <= |doc| && '\n' !in text
    requires from == 0 || doc[from - 1] == '\n'
    requires to == |doc| || doc[to] == '\n'
    ensures var doc' := doc[..from] + text + doc[to..];
      && ChangesFit([Change(from, to, text)], |doc|) && ApplyChanges(doc, [Change(from, to, text)]) == doc'
      && LineAt(doc', from + |text|) == Line(from, from + |text|, text)
  {
    OneChangeFits(doc, Change(from, to, text));
    ApplyOne(doc, Change(from, to, text));
    SplicedLine(doc, from, to, text);
  }

  /** A line's marker change is there exactly for an alert title line. */
  lemma MarkerChangeIff(line: Line)
    ensures MarkerChange(line).Some? <==> !ParseTitleLine(line.text).NotAnAlert?
  {
  }

  /** `tr` cycles the marker of the alert title line `line`: the line
      becomes its cycled form, an alert title line of the next type, and
      nothing else changes. */
  predicate CyclesLine(doc: string, line: Line, tr: Transaction)
    requires LineOf(doc, line)
  {
    && !ParseTitleLine(line.text).NotAnAlert? && !ParseTitleLine(CycledLine(line.text)).NotAnAlert?
    && ParseTitleLine(CycledLine(line.text)).alertType == NextType(ParseTitleLine(line.text).alertType)
    && ChangesFit(tr.changes, |doc|)
    && ApplyChanges(doc, tr.changes) == doc[..line.from] + CycledLine(line.text) + doc[line.to..]
    && tr.cursor.None?
  }

  lemma MarkerCycles(doc: string, line: Line, tr: Transaction)
    requires LineOf(doc, line) && MarkerChange(line).Some?
    requires tr == Transaction([MarkerChange(line).value], None)
    ensures CyclesLine(doc, line, tr)
  {
    MarkerChangeIff(line);
    MarkerChangeCycles(doc, line);
    CycledLineSpec(line.text);
  }

  lemma AlertLineBranch(doc: string, tree: Tree, pos: nat)
    requires pos <= |doc| && TreeFits(tree, |doc|)
    requires Trim(LineAt(doc, pos).text) != "" && MarkerChange(LineAt(doc, pos)).Some?
    ensures CursorTransaction(doc, tree, pos) == Transaction([MarkerChange(LineAt(doc, pos)).value], None)
  {
  }

  /** On an alert title line that is not blank, the command cycles that
      line's marker. */
  lemma AlertLineOutcome(doc: string, tree: Tree, pos: nat)
    requires pos <= |doc| && TreeFits(tree, |doc|)
    requires Trim(LineAt(doc, pos).text) != "" && !ParseTitleLine(LineAt(doc, pos).text).NotAnAlert?
    ensures CyclesLine(doc, LineAt(doc, pos), CursorTransaction(doc, tree, pos))
  {
    MarkerChangeIff(LineAt(doc, pos));
    AlertLineBranch(doc, tree, pos);
    MarkerCycles(doc, LineAt(doc, pos), CursorTransaction(doc, tree, pos));
  }

  lemma WalkBranch(doc: string, tree: Tree, pos: nat)
    requires pos <= |doc| && TreeFits(tree, |doc|)
    requires Trim(LineAt(doc, pos).text) != "" && MarkerChange(LineAt(doc, pos)).None?
    ensures CursorTransaction(doc, tree, pos) == Transaction([BlockquoteChange(doc, tree, pos)], None)
  {
  }

  /** When the walk meets a blockquote starting on an alert title line, the
      command cycles the marker of the first such blockquote's start line;
      the blockquotes met before it start on no alert title line. */
  lemma WalkOutcome(doc: string, tree: Tree, pos: nat) returns (i: nat)
    requires pos <= |doc| && TreeFits(tree, |doc|)
    requires Trim(LineAt(doc, pos).text) != "" && ParseTitleLine(LineAt(doc, pos).text).NotAnAlert?
    requires FirstChange(QuoteChanges(doc), WalkedChains(doc, tree, pos)).Some?
    ensures var walked := WalkedChains(doc, tree, pos);
      && i < |walked| && IsNamed(walked[i], "blockquote") && NodeFits(walked[i], |doc|)
      && (forall j :: 0 <= j < i ==> QuoteChangeAt(doc, walked[j]).None?)
      && CyclesLine(doc, LineAt(doc, walked[i].from), CursorTransaction(doc, tree, pos))
  {
    var walked := WalkedChains(doc, tree, pos);
    var at := QuoteChanges(doc);
    MarkerChangeIff(LineAt(doc, pos));
    WalkBranch(doc, tree, pos);
    FirstChangeSpec(at, walked);
    i :| 0 <= i < |walked| && FirstChange(at, walked) == at(walked[i]) && forall j :: 0 <= j < i ==> at(walked[j]).None?;
    assert at(walked[i]) == QuoteChangeAt(doc, walked[i]);
    forall j | 0 <= j < i ensures QuoteChangeAt(doc, walked[j]).None? {
      assert at(walked[j]) == QuoteChangeAt(doc, walked[j]);
    }
    var line := LineAt(doc, walked[i].from);
    assert BlockquoteChange(doc, tree, pos) == MarkerChange(line).value;
    MarkerCycles(doc, line, CursorTransaction(doc, tree, pos));
  }

  /** `tr` inserts, before `line`, an alert title line made of the
      blockquote prefix of `line`, and nothing else. */
  predicate InsertsAbove(doc: string, line: Line, tr: Transaction)
    requires LineOf(doc, line)
  {
    && BlockquotePrefix(line.text).Some?
    && ChangesFit(tr.changes, |doc|)
    && ApplyChanges(doc, tr.changes) == doc[..line.from] + CreateAlertLine(BlockquotePrefix(line.text).value) + "\n" + doc[line.from..]
    && tr.cursor.None?
  }

  lemma NoWalkChange(doc: string, nodes: seq<Node>)
    requires FirstChange(QuoteChanges(doc), nodes).None?
    ensures forall j :: 0 <= j < |nodes| ==> QuoteChangeAt(doc, nodes[j]).None?
  {
    FirstChangeSpec(QuoteChanges(doc), nodes);
    forall j | 0 <= j < |nodes| ensures QuoteChangeAt(doc, nodes[j]).None? {
      assert QuoteChanges(doc)(nodes[j]) == QuoteChangeAt(doc, nodes[j]);
    }
  }

  lemma AboveBranch(doc: string, tree: Tree, pos: nat)
    requires pos <= |doc| && TreeFits(tree, |doc|)
    requires FirstChange(QuoteChanges(doc), WalkedChains(doc, tree, pos)).None?
    ensures var above := InsertAbove(doc, tree, pos);
      BlockquoteChange(doc, tree, pos) == if above.Some? then above.value else ParagraphChange(doc, tree, pos)
  {
  }

  /** When the walk meets blockquotes but none starts on an alert title
      line, and the outermost one starts on a line with a blockquote
      prefix, the command inserts an alert title line with that prefix
      before it. */
  lemma InsertAboveOutcome(doc: string, tree: Tree, pos: nat)
    requires pos <= |doc| && TreeFits(tree, |doc|)
    requires Trim(LineAt(doc, pos).text) != "" && ParseTitleLine(LineAt(doc, pos).text).NotAnAlert?
    requires FirstChange(QuoteChanges(doc), WalkedChains(doc, tree, pos)).None?
    requires InsertAbove(doc, tree, pos).Some?
    ensures var walked := WalkedChains(doc, tree, pos);
      && (forall j :: 0 <= j < |walked| ==> QuoteChangeAt(doc, walked[j]).None?)
      && OuterFrom(walked, None).Some? && OuterFrom(walked, None).value <= |doc|
      && InsertsAbove(doc, LineAt(doc, OuterFrom(walked, None).value), CursorTransaction(doc, tree, pos))
  {
    var walked := WalkedChains(doc, tree, pos);
    NoWalkChange(doc, walked);
    MarkerChangeIff(LineAt(doc, pos));
    WalkBranch(doc, tree, pos);
    AboveBranch(doc, tree, pos);
    InsertAboveAt(doc, tree, pos);
    var line := LineAt(doc, OuterFrom(walked, None).value);
    AboveInserted(doc, line, CursorTransaction(doc, tree, pos));
  }

  /** The insertion is the alert title line above the outermost
      blockquote's start line. */
  lemma InsertAboveAt(doc: string, tree: Tree, pos: nat)
    requires pos <= |doc| && TreeFits(tree, |doc|) && InsertAbove(doc, tree, pos).Some?
    ensures var outer := OuterFrom(WalkedChains(doc, tree, pos), None);
      && outer.Some? && outer.value <= |doc|
      && var line := LineAt(doc, outer.value);
      && BlockquotePrefix(line.text).Some?
      && InsertAbove(doc, tree, pos).value == Change(line.from, line.from, CreateAlertLine(BlockquotePrefix(line.text).value) + "\n")
  {
    ParentChainsFit(tree, ProbePositions(doc, pos, Some(BlockquoteLinePrefix)), |doc|);
    OuterFromFits(WalkedChains(doc, tree, pos), |doc|);
  }

  lemma AboveInserted(doc: string, line: Line, tr: Transaction)
    requires LineOf(doc, line) && BlockquotePrefix(line.text).Some?
    requires tr == Transaction([Change(line.from, line.from, CreateAlertLine(BlockquotePrefix(line.text).value) + "\n")], None)
    ensures InsertsAbove(doc, line, tr)
  {
    OneChangeFits(doc, tr.changes[0]);
    ApplyOne(doc, tr.changes[0]);
  }

  /** `tr` replaces the whole-line range `r` by its toggled text, and
      nothing else. */
  predicate TogglesRange(doc: string, r: ParagraphRange, tr: Transaction) {
    && LineAligned(doc, r)
    && ChangesFit(tr.changes, |doc|)
    && ApplyChanges(doc, tr.changes) == doc[..r.from] + ToggleAlertSelectionText(doc[r.from..r.to]) + doc[r.to..]
    && tr.cursor.None?
  }

  /** The range the paragraph branch toggles is a span of whole lines: the
      lines of the paragraph the tree has around the cursor, or else the
      cursor's line. */
  lemma ParagraphOrLineSpec(doc: string, tree: Tree, pos: nat)
    requires pos <= |doc| && TreeFits(tree, |doc|)
    ensures var r := ParagraphOrLine(doc, tree, pos);
      var node := ParagraphAt(doc, tree, pos, Some(BlockquoteLinePrefix));
      && LineAligned(doc, r)
      && (node.None? ==> r.from <= pos <= r.to && '\n' !in doc[r.from..r.to])
      && (node.Some? ==> r.from <= node.value.from <= r.to && node.value.to <= r.to + 1)
  {
    var node := ParagraphAt(doc, tree, pos, Some(BlockquoteLinePrefix));
    var r := ParagraphOrLine(doc, tree, pos);
    if node.Some? {
      ParagraphAtFits(doc, tree, pos);
      assert r == GetParagraphLineRange(doc, node.value);
      NodeRangeAligned(doc, node.value);
    } else {
      var line := LineAt(doc, pos);
      assert r == ParagraphRange(line.from, line.to);
    }
  }

  /** When the walk finds nothing to toggle or to insert, the command
      toggles the paragraph around the cursor, or the cursor's line. */
  lemma ParagraphOutcome(doc: string, tree: Tree, pos: nat)
    requires pos <= |doc| && TreeFits(tree, |doc|)
    requires Trim(LineAt(doc, pos).text) != "" && ParseTitleLine(LineAt(doc, pos).text).NotAnAlert?
    requires FirstChange(QuoteChanges(doc), WalkedChains(doc, tree, pos)).None?
    requires InsertAbove(doc, tree, pos).None?
    ensures TogglesRange(doc, ParagraphOrLine(doc, tree, pos), CursorTransaction(doc, tree, pos))
  {
    MarkerChangeIff(LineAt(doc, pos));
    WalkBranch(doc, tree, pos);
    AboveBranch(doc, tree, pos);
    ParagraphOrLineSpec(doc, tree, pos);
    var c := ParagraphChange(doc, tree, pos);
    OneChangeFits(doc, c);
    ApplyOne(doc, c);
  }

  /** The cursor branch's changes lie in the document, and the cursor it
      sets lies in the new document. */
  lemma CursorFits(doc: string, tree: Tree, pos: nat)
    requires pos <= |doc| && TreeFits(tree, |doc|)
    ensures var tr := CursorTransaction(doc, tree, pos);
      && ChangesFit(tr.changes, |doc|)
      && (tr.cursor.Some? ==> tr.cursor.value <= |ApplyChanges(doc, tr.changes)|)
  {
    var line := LineAt(doc, pos);
    if Trim(line.text) == "" {
      BlankLineOutcome(doc, tree, pos);
    } else if MarkerChange(line).Some? {
      AlertLineBranch(doc, tree, pos);
      MarkerChangeCycles(doc, line);
    } else {
      WalkBranch(doc, tree, pos);
      BlockquoteChangeFits(doc, tree, pos);
      OneChangeFits(doc, BlockquoteChange(doc, tree, pos));
    }
  }

  /** Whatever the command dispatches lies in the document, and the cursor
      it sets lies in the new document. */
  lemma CommandFits(doc: string, sel: Selection, tree: Tree)
    requires SelectionFits(sel, |doc|) && TreeFits(tree, |doc|)
    ensures var tr := InsertAlertTransaction(doc, sel, tree);
      && ChangesFit(tr.changes, |doc|)
      && (tr.cursor.Some? ==> tr.cursor.value <= |ApplyChanges(doc, tr.changes)|)
  {
    if NonEmptyRanges(sel.ranges) != [] {
      SelectionChangesFit(doc, tree, sel.ranges);
    } else {
      CursorFits(doc, tree, sel.ranges[sel.mainIndex].head);
    }
  }
}
