/** quoteCommand.ts: the per-line `"> "` prefix and the command that
    quotes every non-empty selection range. */
module QuoteCommand {
  import opened Wrappers
  import opened Text
  import opened Editor
  import opened InsertAlertCommand

  /** `BLOCKQUOTE_PREFIX`. */
  const BlockquotePrefix: string := "> "

  /** `convertToBlockquoteText`: every `\n`-separated line gets the prefix;
      the map is the one `toggleAlertSelectionText` applies to its lines. */
  function ConvertToBlockquoteText(text: string): string {
    Join(QuoteLines(Split(text)))
  }

  /** A line without its leading `"> "`; a line without one is kept. */
  function UnquoteLine(line: string): string {
    if |line| >= 2 && line[..2] == BlockquotePrefix then line[2..] else line
  }

  /** The inverse transform: the prefix is taken off every line. */
  function StripBlockquoteText(text: string): string {
    var lines := Split(text);
    Join(seq(|lines|, i requires 0 <= i < |lines| => UnquoteLine(lines[i])))
  }

  lemma PrefixHasNoLineFeed()
    ensures '\n' !in BlockquotePrefix
  {
  }

  lemma {:induction false} QuotedHaveNoLineFeeds(lines: seq<string>)
    requires NoLineFeeds(lines)
    ensures NoLineFeeds(QuoteLines(lines))
  {
    PrefixHasNoLineFeed();
    var q := QuoteLines(lines);
    forall i | 0 <= i < |q| ensures '\n' !in q[i] {
      assert q[i] == BlockquotePrefix + lines[i];
    }
  }

  /** The lines of the output are the input's lines, each prefixed: the
      same number of lines, each starting with `"> "` and holding the input
      line after it. */
  lemma {:induction false} ConvertLines(text: string)
    ensures var out := Split(ConvertToBlockquoteText(text));
      var lines := Split(text);
      && |out| == |lines|
      && forall i :: 0 <= i < |out| ==> |out[i]| >= 2 && out[i][..2] == BlockquotePrefix && out[i][2..] == lines[i]
  {
    var lines := Split(text);
    QuotedHaveNoLineFeeds(lines);
    SplitJoin(QuoteLines(lines));
    var out := Split(ConvertToBlockquoteText(text));
    forall i | 0 <= i < |out| ensures |out[i]| >= 2 && out[i][..2] == BlockquotePrefix && out[i][2..] == lines[i] {
      assert out[i] == BlockquotePrefix + lines[i];
    }
  }

  /** Taking the prefix off every line gives back the original text. */
  lemma {:induction false} StripConvert(text: string)
    ensures StripBlockquoteText(ConvertToBlockquoteText(text)) == text
  {
    var lines := Split(text);
    var out := Split(ConvertToBlockquoteText(text));
    ConvertLines(text);
    var stripped := seq(|out|, i requires 0 <= i < |out| => UnquoteLine(out[i]));
    assert stripped == lines by {
      forall i | 0 <= i < |out| ensures stripped[i] == lines[i] {
        assert UnquoteLine(out[i]) == out[i][2..];
      }
    }
  }

  /** Each line grows by the two characters of the prefix. */
  lemma {:induction false} QuotedLength(lines: seq<string>)
    requires |lines| >= 1
    ensures |Join(QuoteLines(lines))| == |Join(lines)| + 2 * |lines|
    decreases |lines|
  {
    var q := QuoteLines(lines);
    if |lines| > 1 {
      assert q[1..] == QuoteLines(lines[1..]);
      QuotedLength(lines[1..]);
    }
  }

  /** The output is longer by two characters per line, one line more than
      there are line feeds. */
  lemma ConvertLength(text: string)
    ensures |ConvertToBlockquoteText(text)| == |text| + 2 * (CountLineFeeds(text) + 1)
  {
    QuotedLength(Split(text));
    SplitCount(text);
  }

  /** Ranges in document order without overlap. */
  predicate Ordered(ranges: seq<SelectionRange>) {
    forall i, j :: 0 <= i < j < |ranges| ==> ranges[i].To() <= ranges[j].From()
  }

  /** Dropping the empty ranges keeps the others in order. */
  lemma {:induction false} NonEmptyOrdered(ranges: seq<SelectionRange>)
    requires Ordered(ranges)
    ensures Ordered(NonEmptyRanges(ranges))
    decreases |ranges|
  {
    if ranges != [] {
      var rest := NonEmptyRanges(ranges[1..]);
      assert Ordered(ranges[1..]) by {
        forall i, j | 0 <= i < j < |ranges| - 1 ensures ranges[1..][i].To() <= ranges[1..][j].From() {
          assert ranges[1..][i] == ranges[i + 1] && ranges[1..][j] == ranges[j + 1];
        }
      }
      NonEmptyOrdered(ranges[1..]);
      forall x | x in rest ensures ranges[0].To() <= x.From() {
        var k :| 0 <= k < |ranges| - 1 && ranges[1..][k] == x;
        assert ranges[k + 1] == x;
      }
      var r := NonEmptyRanges(ranges);
      forall i, j | 0 <= i < j < |r| ensures r[i].To() <= r[j].From() {
        if ranges[0].Empty() {
          assert r == rest;
        } else {
          assert r == [ranges[0]] + rest;
          assert r[j] == rest[j - 1];
          if i > 0 {
            assert r[i] == rest[i - 1];
          } else {
            assert r[j] in rest;
          }
        }
      }
    }
  }

  function QuoteChange(doc: string, range: SelectionRange): Change
    requires range.To() <= |doc|
  {
    Change(range.From(), range.To(), ConvertToBlockquoteText(doc[range.From()..range.To()]))
  }

  /** The changes of lines 22-31: one per non-empty range, in selection
      order, each replacing that range by its text quoted. They lie in the
      document in order without overlap. */
  function QuoteChanges(doc: string, sel: Selection): (cs: seq<Change>)
    requires SelectionFits(sel, |doc|)
    ensures var ranges := NonEmptyRanges(sel.ranges);
      && |cs| == |ranges|
      && (forall i :: 0 <= i < |cs| ==> cs[i].from == ranges[i].From() && cs[i].to == ranges[i].To())
      && ChangesFit(cs, |doc|)
  {
    var ranges := NonEmptyRanges(sel.ranges);
    NonEmptyFits(sel.ranges, |doc|);
    NonEmptyOrdered(sel.ranges);
    seq(|ranges|, i requires 0 <= i < |ranges| => QuoteChange(doc, ranges[i]))
  }

  /** Every change of the command puts the quoted text of its range in
      place of the range: each of its lines starts with the prefix, taking
      the prefixes off gives back the range's text, and it is longer by two
      characters per line. */
  lemma QuoteChangesInsert(doc: string, sel: Selection, i: nat)
    requires SelectionFits(sel, |doc|) && i < |QuoteChanges(doc, sel)|
    ensures var c := QuoteChanges(doc, sel)[i];
      && (forall k :: 0 <= k < |Split(c.insert)| ==> |Split(c.insert)[k]| >= 2 && Split(c.insert)[k][..2] == BlockquotePrefix)
      && StripBlockquoteText(c.insert) == doc[c.from..c.to]
      && |c.insert| == c.to - c.from + 2 * (CountLineFeeds(doc[c.from..c.to]) + 1)
  {
    var c := QuoteChanges(doc, sel)[i];
    ConvertLines(doc[c.from..c.to]);
    StripConvert(doc[c.from..c.to]);
    ConvertLength(doc[c.from..c.to]);
  }

  /** `createQuoteSelectionCommand(view)()`: with no non-empty range it
      returns false and leaves the document alone; otherwise it dispatches
      the quoting changes, which set no cursor, and returns true. */
  method QuoteSelection(view: EditorView) returns (handled: bool)
    requires view.Valid()
    modifies view
    ensures handled == (NonEmptyRanges(old(view.selection.ranges)) != [])
    ensures handled ==> view.doc == ApplyChanges(old(view.doc), QuoteChanges(old(view.doc), old(view.selection)))
    ensures !handled ==> view.doc == old(view.doc)
    ensures view.selection == if handled then ClampSelection(old(view.selection), |view.doc|) else old(view.selection)
    ensures view.Valid()
  {
    var nonEmpty := NonEmptyRanges(view.selection.ranges);
    if |nonEmpty| == 0 {
      return false;
    }
    var changes := QuoteChanges(view.doc, view.selection);
    view.Dispatch(Transaction(changes, None));
    return true;
  }
}
