/** `parseSelectionMarkers` of testUtils.ts: a test document marks its
    selection with `[[` and `]]`, or its cursor with `|`; the parser strips
    the markers and reports the document and the selection. */
module TestUtils {
  import opened Wrappers
  import opened Text

  const SelectionStart: string := "[["
  const SelectionEnd: string := "]]"
  const CursorMarker: string := "|"

  /** `{anchor, head}`. */
  datatype SelectionSpec = SelectionSpec(anchor: nat, head: nat)

  /** `{doc, selection}`. */
  datatype Marked = Marked(doc: string, selection: SelectionSpec)

  /** The three errors the parser throws, in the order it checks them. */
  datatype MarkerError = MissingSelectionMarker | MixedMarkers | EndBeforeStart

  /** `pat` occurs somewhere in `s`. */
  predicate Contains(s: string, pat: string) {
    exists i :: 0 <= i <= |s| && OccursAt(s, pat, i)
  }

  lemma IndexOfFound(s: string, pat: string)
    ensures IndexOf(s, pat) != -1 <==> Contains(s, pat)
  {
    var r := IndexOf(s, pat);
    if r == -1 {
      forall i ensures !OccursAt(s, pat, i) {
        if 0 <= i <= |s| {
          assert !OccursAt(s, pat, i);
        }
      }
    }
  }

  /** Where a first `[[` and a first `]]` not before it lie, the `]]`
      starts after the `[[` ends. */
  lemma MarkersApart(input: string, s: int, e: int)
    requires OccursAt(input, SelectionStart, s) && OccursAt(input, SelectionEnd, e) && s <= e
    ensures s + 2 <= e
  {
    assert input[s] == input[s..s + 2][0] == '[';
    assert input[s + 1] == input[s..s + 2][1] == '[';
    assert input[e] == input[e..e + 2][0] == ']';
  }

  /** The error the parser throws for `input`, if any (lines 25-34). */
  function MarkerCheck(input: string): Option<MarkerError> {
    var s := IndexOf(input, SelectionStart);
    var e := IndexOf(input, SelectionEnd);
    var c := IndexOf(input, CursorMarker);
    if s == -1 && e == -1 then None
    else if s == -1 || e == -1 then Some(MissingSelectionMarker)
    else if c != -1 then Some(MixedMarkers)
    else if e < s then Some(EndBeforeStart)
    else None
  }

  /** The parser throws exactly when one selection marker is missing, when
      selection markers come with a cursor marker, or when the first `]]`
      comes before the first `[[`. */
  lemma MarkerCheckSpec(input: string)
    ensures var hasStart := Contains(input, SelectionStart);
      var hasEnd := Contains(input, SelectionEnd);
      && (MarkerCheck(input) == Some(MissingSelectionMarker) <==> hasStart != hasEnd)
      && (MarkerCheck(input) == Some(MixedMarkers) <==> hasStart && hasEnd && Contains(input, CursorMarker))
      && (MarkerCheck(input) == Some(EndBeforeStart) <==>
            hasStart && hasEnd && !Contains(input, CursorMarker) && IndexOf(input, SelectionEnd) < IndexOf(input, SelectionStart))
  {
    IndexOfFound(input, SelectionStart);
    IndexOfFound(input, SelectionEnd);
    IndexOfFound(input, CursorMarker);
  }

  /** `parseSelectionMarkers` as written: the selection's document takes
      the first `[[` out and then the first `]]` of what is left, which need
      not be the `]]` whose offset gives the head. */
  function ParseSelectionMarkersAsWritten(input: string): Result<Marked, MarkerError> {
    var s := IndexOf(input, SelectionStart);
    var e := IndexOf(input, SelectionEnd);
    var c := IndexOf(input, CursorMarker);
    if MarkerCheck(input).Some? then Err(MarkerCheck(input).value)
    else if s != -1 then
      MarkersApart(input, s, e);
      var doc := RemoveFirst(RemoveFirst(input, SelectionStart), SelectionEnd);
      Ok(Marked(doc, SelectionSpec(s, e - |SelectionStart|)))
    else if c != -1 then
      Ok(Marked(RemoveFirst(input, CursorMarker), SelectionSpec(c, c)))
    else
      Ok(Marked(input, SelectionSpec(0, 0)))
  }

  /** The input puts back together from what the parser reports: the
      document with `[[` at the anchor and `]]` at the head, or `|` at the
      cursor, or the document alone. */
  predicate Restores(input: string, m: Marked) {
    var a := m.selection.anchor;
    var h := m.selection.head;
    && a <= h <= |m.doc|
    && if Contains(input, SelectionStart) then
         input == m.doc[..a] + SelectionStart + m.doc[a..h] + SelectionEnd + m.doc[h..]
       else if Contains(input, CursorMarker) then
         a == h && input == m.doc[..a] + CursorMarker + m.doc[a..]
       else
         a == h == 0 && input == m.doc
  }

  /** The parser with the markers removed where they were found: the
      input up to `[[`, the text between the markers and the input after
      `]]`. */
  function ParseSelectionMarkers(input: string): (r: Result<Marked, MarkerError>)
    ensures r.Err? <==> MarkerCheck(input).Some?
    ensures r.Err? ==> r.error == MarkerCheck(input).value
    ensures r.Ok? ==> Restores(input, r.value)
    ensures r.Ok? && Contains(input, SelectionStart) ==>
      var a, h := r.value.selection.anchor, r.value.selection.head;
      && OccursAt(input, SelectionStart, a) && NoOccurrence(input, SelectionStart, 0, a)
      && OccursAt(input, SelectionEnd, h + 2) && NoOccurrence(input, SelectionEnd, 0, h + 2)
    ensures r.Ok? && !Contains(input, SelectionStart) && Contains(input, CursorMarker) ==>
      var a := r.value.selection.anchor;
      && r.value.selection.head == a
      && OccursAt(input, CursorMarker, a) && NoOccurrence(input, CursorMarker, 0, a)
  {
    var s := IndexOf(input, SelectionStart);
    var e := IndexOf(input, SelectionEnd);
    var c := IndexOf(input, CursorMarker);
    IndexOfFound(input, SelectionStart);
    IndexOfFound(input, CursorMarker);
    if MarkerCheck(input).Some? then Err(MarkerCheck(input).value)
    else if s != -1 then
      MarkersApart(input, s, e);
      var doc := input[..s] + input[s + 2..e] + input[e + 2..];
      SelectionRestores(input, s, e, doc);
      Ok(Marked(doc, SelectionSpec(s, e - |SelectionStart|)))
    else if c != -1 then
      var doc := input[..c] + input[c + 1..];
      CursorRestores(input, c, doc);
      Ok(Marked(doc, SelectionSpec(c, c)))
    else
      Ok(Marked(input, SelectionSpec(0, 0)))
  }

  lemma SelectionRestores(input: string, s: nat, e: nat, doc: string)
    requires OccursAt(input, SelectionStart, s) && OccursAt(input, SelectionEnd, e) && s + 2 <= e
    requires doc == input[..s] + input[s + 2..e] + input[e + 2..]
    ensures s <= e - 2 <= |doc|
    ensures input == doc[..s] + SelectionStart + doc[s..e - 2] + SelectionEnd + doc[e - 2..]
  {
    assert doc[..s] == input[..s];
    assert doc[s..e - 2] == input[s + 2..e];
    assert doc[e - 2..] == input[e + 2..];
    assert input == input[..s] + input[s..s + 2] + input[s + 2..e] + input[e..e + 2] + input[e + 2..];
  }

  lemma CursorRestores(input: string, c: nat, doc: string)
    requires OccursAt(input, CursorMarker, c) && doc == input[..c] + input[c + 1..]
    ensures c <= |doc| && input == doc[..c] + CursorMarker + doc[c..]
  {
    assert doc[..c] == input[..c] && doc[c..] == input[c + 1..];
    assert input == input[..c] + input[c..c + 1] + input[c + 1..];
  }

  /** Taking out `[[` can join a `]` before it and a `]` after it into a
      `]]` that the second removal then takes instead of the marker. */
  predicate Straddles(input: string) {
    var s := IndexOf(input, SelectionStart);
    1 <= s && s + 2 < |input| && input[s - 1] == ']' && input[s + 2] == ']'
  }

  lemma IndexOfIs(t: string, pat: string, k: nat)
    requires OccursAt(t, pat, k) && NoOccurrence(t, pat, 0, k)
    ensures IndexOf(t, pat) == k
  {
  }

  /** `[[` occurs at `j` exactly when `j` and `j + 1` hold `[`. */
  lemma StartAt(x: string, j: int)
    ensures OccursAt(x, SelectionStart, j) <==> 0 <= j && j + 2 <= |x| && x[j] == '[' && x[j + 1] == '['
  {
    if 0 <= j && j + 2 <= |x| {
      assert x[j..j + 2] == [x[j], x[j + 1]];
    }
  }

  /** `]]` occurs at `j` exactly when `j` and `j + 1` hold `]`. */
  lemma EndAt(x: string, j: int)
    ensures OccursAt(x, SelectionEnd, j) <==> 0 <= j && j + 2 <= |x| && x[j] == ']' && x[j + 1] == ']'
  {
    if 0 <= j && j + 2 <= |x| {
      assert x[j..j + 2] == [x[j], x[j + 1]];
    }
  }

  /** With the `[[` at `s` cut out and no join, the first `]]` is the
      marker's, two places earlier. */
  lemma {:induction false} CutKeepsEnd(input: string, s: nat, e: nat, t: string)
    requires OccursAt(input, SelectionEnd, e) && NoOccurrence(input, SelectionEnd, 0, e) && s + 2 <= e
    requires !(1 <= s && input[s - 1] == ']' && input[s + 2] == ']')
    requires t == input[..s] + input[s + 2..]
    ensures IndexOf(t, SelectionEnd) == e - 2
  {
    assert forall k :: 0 <= k < s ==> t[k] == input[k];
    assert forall k :: s <= k < |t| ==> t[k] == input[k + 2];
    EndAt(input, e);
    EndAt(t, e - 2);
    forall j | 0 <= j < e - 2 ensures !OccursAt(t, SelectionEnd, j) {
      EndAt(t, j);
      if j + 1 < s {
        EndAt(input, j);
      } else if j >= s {
        EndAt(input, j + 2);
      }
    }
    IndexOfIs(t, SelectionEnd, e - 2);
  }

  /** Cutting two characters at `s` and then two at what was `e` leaves
      the three pieces around them. */
  lemma CutTwice(x: string, s: nat, e: nat)
    requires s + 2 <= e && e + 2 <= |x|
    ensures var t := x[..s] + x[s + 2..];
      t[..e - 2] + t[e..] == x[..s] + x[s + 2..e] + x[e + 2..]
  {
    var t := x[..s] + x[s + 2..];
    var rest := x[s + 2..];
    assert t[..e - 2] == x[..s] + rest[..e - 2 - s];
    assert rest[..e - 2 - s] == x[s + 2..e];
    assert t[e..] == rest[e - s..] == x[e + 2..];
  }

  /** Without a join, the two removals take out exactly the markers. */
  lemma {:induction false} RemovalsCutMarkers(input: string, s: nat, e: nat)
    requires IndexOf(input, SelectionStart) == s && IndexOf(input, SelectionEnd) == e && s + 2 <= e
    requires !(1 <= s && input[s - 1] == ']' && input[s + 2] == ']')
    ensures RemoveFirst(RemoveFirst(input, SelectionStart), SelectionEnd) == input[..s] + input[s + 2..e] + input[e + 2..]
  {
    var t := RemoveFirst(input, SelectionStart);
    assert t == input[..s] + input[s + 2..];
    CutKeepsEnd(input, s, e, t);
    CutTwice(input, s, e);
  }

  /** Without such a join the parser as written reports what the corrected
      one does. */
  lemma AsWrittenAgrees(input: string)
    requires !Straddles(input)
    ensures ParseSelectionMarkersAsWritten(input) == ParseSelectionMarkers(input)
  {
    var s := IndexOf(input, SelectionStart);
    var e := IndexOf(input, SelectionEnd);
    if MarkerCheck(input).None? && s != -1 {
      MarkersApart(input, s, e);
      RemovalsCutMarkers(input, s, e);
    }
  }

  /** A selection `]y` between a `]` and a `]`: `x]` + `[[` + `]y` + `]]`. */
  const Joined: string := "x][[]y]]"

  lemma JoinedStart()
    ensures IndexOf(Joined, SelectionStart) == 2
  {
    StartAt(Joined, 0);
    StartAt(Joined, 1);
    StartAt(Joined, 2);
    IndexOfIs(Joined, SelectionStart, 2);
  }

  lemma JoinedEnd()
    ensures IndexOf(Joined, SelectionEnd) == 6
  {
    forall j | 0 <= j < 6 ensures !OccursAt(Joined, SelectionEnd, j) {
      EndAt(Joined, j);
    }
    EndAt(Joined, 6);
    IndexOfIs(Joined, SelectionEnd, 6);
  }

  lemma JoinedNoCursor()
    ensures IndexOf(Joined, CursorMarker) == -1
  {
    forall j | 0 <= j <= |Joined| ensures !OccursAt(Joined, CursorMarker, j) {
      if j < |Joined| {
        assert Joined[j..j + 1] == [Joined[j]];
      }
    }
  }

  /** As written, the first removal leaves `x]]y]]` and the second takes
      the `]]` the first one made. */
  lemma JoinedAsWritten()
    ensures ParseSelectionMarkersAsWritten(Joined) == Ok(Marked("xy]]", SelectionSpec(2, 4)))
  {
    JoinedStart();
    JoinedEnd();
    JoinedNoCursor();
    JoinedFirstRemoval();
    JoinedSecondRemoval();
  }

  /** Taking out the `[[` at 2 leaves `x]]y]]`. */
  lemma JoinedFirstRemoval()
    ensures RemoveFirst(Joined, SelectionStart) == "x]]y]]"
  {
    JoinedStart();
  }

  /** In `x]]y]]` the first `]]` is at 1, so its removal leaves `xy]]`. */
  lemma JoinedSecondRemoval()
    ensures RemoveFirst("x]]y]]", SelectionEnd) == "xy]]"
  {
    var t := "x]]y]]";
    EndAt(t, 0);
    EndAt(t, 1);
    IndexOfIs(t, SelectionEnd, 1);
  }

  /** The markers put back into `xy]]` at 2 and 4 give `xy[[]]]]`. */
  lemma JoinedNotRestored()
    ensures !Restores(Joined, Marked("xy]]", SelectionSpec(2, 4)))
  {
    JoinedStart();
    IndexOfFound(Joined, SelectionStart);
    var d := "xy]]";
    assert d[..2] + SelectionStart + d[2..4] + SelectionEnd + d[4..] == "xy[[]]]]";
  }

  /** The parser as written loses the selected `]` on this input, while
      the corrected one keeps the document `x]]y` with `]y` selected. */
  lemma AsWrittenLosesText()
    ensures ParseSelectionMarkersAsWritten(Joined) == Ok(Marked("xy]]", SelectionSpec(2, 4)))
    ensures !Restores(Joined, Marked("xy]]", SelectionSpec(2, 4)))
    ensures ParseSelectionMarkers(Joined) == Ok(Marked("x]]y", SelectionSpec(2, 4)))
  {
    JoinedAsWritten();
    JoinedNotRestored();
    JoinedStart();
    JoinedEnd();
    JoinedNoCursor();
    assert Joined[..2] == "x]";
    assert Joined[4..6] == "]y";
    assert Joined[8..] == [];
    assert Joined[..2] + Joined[4..6] + Joined[8..] == "x]]y";
  }
}
