/** The part of the CodeMirror editor the commands use: the document with
    `lineAt`, selections, change specifications, the syntax tree as an
    oracle, and a view whose `dispatch` applies a transaction. Offsets count
    characters and lines are separated by `\n`. */
module Editor {
  import opened Wrappers
  import opened Text

  /** A line of the document: where it starts, where it ends (before its
      line feed) and its text. */
  datatype Line = Line(from: nat, to: nat, text: string)

  /** `state.doc.lineAt(pos)`; CodeMirror throws for an offset outside the
      document, so the offset must lie in it. The line is the stretch around
      `pos` without line feeds, bounded by line feeds or the document's
      ends. */
  function LineAt(doc: string, pos: nat): (l: Line)
    requires pos <= |doc|
    ensures l.from <= pos <= l.to <= |doc| && l.text == doc[l.from..l.to]
    ensures '\n' !in l.text
    ensures l.from == 0 || doc[l.from - 1] == '\n'
    ensures l.to == |doc| || doc[l.to] == '\n'
  {
    var from := LineStart(doc, pos);
    var to := LineEnd(doc, pos);
    LineHasNoLineFeed(doc, from, pos, to);
    Line(from, to, doc[from..to])
  }

  /** `lineAt(pos).from`: the offset after the last line feed before `pos`. */
  function LineStart(doc: string, pos: nat): (from: nat)
    requires pos <= |doc|
    ensures from <= pos && AllIn(doc, from, pos, NotLineFeed)
    ensures from == 0 || doc[from - 1] == '\n'
  {
    SpanBack(doc, pos, NotLineFeed)
  }

  /** `lineAt(pos).to`: the offset of the first line feed from `pos` on, or
      the end of the document. */
  function LineEnd(doc: string, pos: nat): (to: nat)
    requires pos <= |doc|
    ensures pos <= to <= |doc| && AllIn(doc, pos, to, NotLineFeed)
    ensures to == |doc| || doc[to] == '\n'
  {
    SpanFrom(doc, pos, NotLineFeed)
  }

  lemma {:induction false} LineHasNoLineFeed(doc: string, from: nat, pos: nat, to: nat)
    requires from <= pos <= to <= |doc|
    requires AllIn(doc, from, pos, NotLineFeed) && AllIn(doc, pos, to, NotLineFeed)
    ensures '\n' !in doc[from..to]
  {
    forall i | 0 <= i < to - from ensures doc[from..to][i] != '\n' {
      assert doc[from..to][i] == doc[from + i];
      assert InClass(doc[from + i], NotLineFeed);
    }
  }

  /** Every offset of a line finds that line. */
  lemma {:induction false} LineAtInside(doc: string, pos: nat, q: nat)
    requires pos <= |doc| && LineAt(doc, pos).from <= q <= LineAt(doc, pos).to
    ensures LineAt(doc, q) == LineAt(doc, pos)
  {
    var l := LineAt(doc, pos);
    assert AllIn(doc, l.from, l.to, NotLineFeed) by {
      forall x | l.from <= x < l.to ensures InClass(doc[x], NotLineFeed) {
        assert doc[x] == l.text[x - l.from];
      }
    }
    SpanFromIs(doc, q, l.to, NotLineFeed);
    SpanBackIs(doc, l.from, q, NotLineFeed);
    assert LineStart(doc, q) == l.from && LineEnd(doc, q) == l.to;
  }

  /** A selection range; `from` and `to` are its ends in document order. */
  datatype SelectionRange = SelectionRange(anchor: nat, head: nat) {
    function From(): nat {
      if anchor <= head then anchor else head
    }

    function To(): nat {
      if anchor <= head then head else anchor
    }

    predicate Empty() {
      anchor == head
    }
  }

  /** `state.selection`: its ranges and which of them is the main one. */
  datatype Selection = Selection(ranges: seq<SelectionRange>, mainIndex: nat)

  function Cursor(pos: nat): Selection {
    Selection([SelectionRange(pos, pos)], 0)
  }

  /** What CodeMirror keeps true of a selection: at least one range, a main
      range among them, every range inside the document, and the ranges in
      document order without overlap. */
  predicate SelectionFits(sel: Selection, n: nat) {
    && |sel.ranges| >= 1 && sel.mainIndex < |sel.ranges|
    && (forall i :: 0 <= i < |sel.ranges| ==> sel.ranges[i].To() <= n)
    && (forall i, j :: 0 <= i < j < |sel.ranges| ==> sel.ranges[i].To() <= sel.ranges[j].From())
  }

  /** The selection with every end that lies past `n` moved back to `n`. */
  function ClampSelection(sel: Selection, n: nat): (r: Selection)
    ensures |r.ranges| == |sel.ranges| && r.mainIndex == sel.mainIndex
  {
    Selection(seq(|sel.ranges|, i requires 0 <= i < |sel.ranges| => ClampRange(sel.ranges[i], n)), sel.mainIndex)
  }

  function ClampPos(p: nat, n: nat): nat {
    if p <= n then p else n
  }

  function ClampRange(r: SelectionRange, n: nat): SelectionRange {
    SelectionRange(ClampPos(r.anchor, n), ClampPos(r.head, n))
  }

  /** Clamping keeps a selection's ranges, main range and order, and puts
      every range inside a document of length `n`. */
  lemma ClampFits(sel: Selection, m: nat, n: nat)
    requires SelectionFits(sel, m)
    ensures SelectionFits(ClampSelection(sel, n), n)
  {
    var r := ClampSelection(sel, n);
    forall i | 0 <= i < |r.ranges|
      ensures r.ranges[i].From() == ClampPos(sel.ranges[i].From(), n) && r.ranges[i].To() == ClampPos(sel.ranges[i].To(), n)
    {
      assert r.ranges[i] == ClampRange(sel.ranges[i], n);
    }
  }

  /** A selection that already lies in the document is left as it is. */
  lemma ClampInside(sel: Selection, n: nat)
    requires SelectionFits(sel, n)
    ensures ClampSelection(sel, n) == sel
  {
    var r := ClampSelection(sel, n);
    forall i | 0 <= i < |r.ranges| ensures r.ranges[i] == sel.ranges[i] {
      assert sel.ranges[i].anchor <= sel.ranges[i].To() <= n;
      assert sel.ranges[i].head <= sel.ranges[i].To();
    }
  }

  /** A change specification `{from, to, insert}`; `{from, insert}` has
      `to == from`. */
  datatype Change = Change(from: nat, to: nat, insert: string)

  /** What a command hands to `view.dispatch`: its changes and, when it sets
      one, the new cursor. */
  datatype Transaction = Transaction(changes: seq<Change>, cursor: Option<nat>)

  /** The changes lie in a document of length `n`, in order and without
      overlap; offsets refer to the document before any of them. */
  predicate ChangesFit(cs: seq<Change>, n: nat) {
    && (forall i :: 0 <= i < |cs| ==> cs[i].from <= cs[i].to <= n)
    && (forall i, j :: 0 <= i < j < |cs| ==> cs[i].to <= cs[j].from)
  }

  /** The document after the changes: each replaces its stretch of the old
      document by its text. */
  function ApplyChanges(doc: string, cs: seq<Change>): string
    requires ChangesFit(cs, |doc|)
    decreases |cs|
  {
    if cs == [] then doc
    else
      var c := cs[|cs| - 1];
      ApplyChanges(doc[..c.from], cs[..|cs| - 1]) + c.insert + doc[c.to..]
  }

  /** One change replaces its stretch. */
  lemma ApplyOne(doc: string, c: Change)
    requires c.from <= c.to <= |doc|
    ensures ApplyChanges(doc, [c]) == doc[..c.from] + c.insert + doc[c.to..]
  {
    assert [c][..0] == [];
  }

  /** A node of the syntax tree: its type name and its span. */
  datatype Node = Node(name: string, from: int, to: int)

  /** The syntax tree as an oracle. `resolveInner(pos, bias)` gives the node
      `tree.resolveInner(pos, bias)` followed by its ancestors, innermost
      first, as the `parent` walk visits them; `iterate(from, to)` gives the
      nodes `tree.iterate({from, to, enter})` enters, in order. */
  datatype Tree = Tree(resolveInner: (int, int) -> seq<Node>, iterate: (int, int) -> seq<Node>)

  predicate NodeFits(node: Node, n: nat) {
    0 <= node.from <= node.to <= n
  }

  /** Every node the tree reports lies in a document of length `n`. */
  ghost predicate TreeFits(tree: Tree, n: nat) {
    && (forall p, b, i :: 0 <= i < |tree.resolveInner(p, b)| ==> NodeFits(tree.resolveInner(p, b)[i], n))
    && (forall f, t, i :: 0 <= i < |tree.iterate(f, t)| ==> NodeFits(tree.iterate(f, t)[i], n))
  }

  /** `node.name.toLowerCase() === name` for a lower-case `name`; node type
      names are ASCII. */
  predicate IsNamed(node: Node, name: string) {
    Lower(node.name) == name
  }

  /** The editor view: its document and selection, which `dispatch`
      updates. */
  class EditorView {
    var doc: string
    var selection: Selection

    predicate Valid()
      reads this
    {
      SelectionFits(selection, |doc|)
    }

    constructor(doc: string, selection: Selection)
      requires SelectionFits(selection, |doc|)
      ensures Valid() && this.doc == doc && this.selection == selection
    {
      this.doc := doc;
      this.selection := selection;
    }

    /** `view.dispatch(tr)`: the document becomes the changed one. When the
        transaction sets a cursor, which CodeMirror demands lie in the new
        document, the selection becomes that cursor; otherwise the old
        selection is kept, clamped to the new document. A valid view stays
        valid. */
    method Dispatch(tr: Transaction)
      requires ChangesFit(tr.changes, |doc|)
      requires tr.cursor.Some? ==> tr.cursor.value <= |ApplyChanges(doc, tr.changes)|
      modifies this
      ensures doc == ApplyChanges(old(doc), tr.changes)
      ensures tr.cursor.Some? ==> selection == Cursor(tr.cursor.value)
      ensures tr.cursor.None? ==> selection == ClampSelection(old(selection), |doc|)
      ensures old(Valid()) ==> Valid()
    {
      if !tr.cursor.Some? && Valid() {
        ClampFits(selection, |doc|, |ApplyChanges(doc, tr.changes)|);
      }
      doc := ApplyChanges(doc, tr.changes);
      if tr.cursor.Some? {
        selection := Cursor(tr.cursor.value);
      } else {
        selection := ClampSelection(selection, |doc|);
      }
    }
  }
}
