/** GitHub alert title lines (`> [!NOTE] Optional title`): the five alert
    types, the title-line pattern
    `^(\s*>\s*)\[!(note|tip|important|warning|caution)\](?:([ \t]+)(.*))?$`
    (case-insensitive) as a hand-written matcher, and the parse result with
    its marker and hide ranges. */
module AlertParsing {
  import opened Wrappers
  import opened Text

  /** `GITHUB_ALERT_TYPES`. */
  datatype AlertType = Note | Tip | Important | Warning | Caution

  /** The fixed order in which the toggle command cycles through the types. */
  const AlertTypes: seq<AlertType> := [Note, Tip, Important, Warning, Caution]

  /** The canonical lower-case name of a type. */
  function Name(t: AlertType): string {
    match t
    case Note => "note"
    case Tip => "tip"
    case Important => "important"
    case Warning => "warning"
    case Caution => "caution"
  }

  /** `GITHUB_ALERT_TYPES.indexOf(t)`. */
  function TypeIndex(t: AlertType): (i: nat)
    ensures i < |AlertTypes| && AlertTypes[i] == t
  {
    match t
    case Note => 0
    case Tip => 1
    case Important => 2
    case Warning => 3
    case Caution => 4
  }

  /** The type after `t`: index `(indexOf(t) + 1) % 5`. */
  function NextType(t: AlertType): (n: AlertType)
    ensures TypeIndex(n) == (TypeIndex(t) + 1) % |AlertTypes|
  {
    AlertTypes[(TypeIndex(t) + 1) % |AlertTypes|]
  }

  /** The cycle written out: note, tip, important, warning, caution, note. */
  lemma NextTypeTable()
    ensures NextType(Note) == Tip && NextType(Tip) == Important && NextType(Important) == Warning
    ensures NextType(Warning) == Caution && NextType(Caution) == Note
  {
  }

  /** Cycling five times comes back to the starting type. */
  lemma CycleFive(t: AlertType)
    ensures NextType(NextType(NextType(NextType(NextType(t))))) == t
  {
    NextTypeTable();
  }

  /** Cycling fewer than five times never does. */
  lemma CycleShorter(t: AlertType)
    ensures NextType(t) != t
    ensures NextType(NextType(t)) != t
    ensures NextType(NextType(NextType(t))) != t
    ensures NextType(NextType(NextType(NextType(t)))) != t
  {
    NextTypeTable();
  }

  /** `[!` + the upper-cased name + `]`: the marker the commands write. */
  function MarkerText(t: AlertType): string {
    "[!" + UpperToken(t) + "]"
  }

  /** The upper-case tokens written out. */
  lemma {:induction false} UpperTokenLiteral(t: AlertType)
    ensures UpperToken(t) == match t
      case Note => "NOTE"
      case Tip => "TIP"
      case Important => "IMPORTANT"
      case Warning => "WARNING"
      case Caution => "CAUTION"
  {
    match t
    case Note => UpperOfLiteral("note", "NOTE");
    case Tip => UpperOfLiteral("tip", "TIP");
    case Important => UpperOfLiteral("important", "IMPORTANT");
    case Warning => UpperOfLiteral("warning", "WARNING");
    case Caution => UpperOfLiteral("caution", "CAUTION");
  }

  lemma {:induction false} UpperOfLiteral(n: string, u: string)
    requires |n| == |u| && forall i :: 0 <= i < |n| ==> UpperChar(n[i]) == u[i]
    ensures Upper(n) == u
  {
  }

  /** The type a token names once lower-cased, if it names one: the
      case-insensitive alternation of the pattern followed by
      `typeText.toLowerCase()`. */
  function TypeOfToken(token: string): (r: Option<AlertType>)
    ensures r.Some? ==> Lower(token) == Name(r.value)
    ensures r.None? ==> forall t :: Lower(token) != Name(t)
  {
    var l := Lower(token);
    if l == "note" then Some(Note)
    else if l == "tip" then Some(Tip)
    else if l == "important" then Some(Important)
    else if l == "warning" then Some(Warning)
    else if l == "caution" then Some(Caution)
    else None
  }

  /** A token that names a type holds no `]`, since lower-casing leaves `]`
      alone and no name contains it. */
  lemma TokenHasNoBracket(token: string)
    requires TypeOfToken(token).Some?
    ensures All(token, NotCloseBracket)
  {
    var n := Name(TypeOfToken(token).value);
    forall i | 0 <= i < |token| ensures token[i] != ']' {
      assert LowerChar(token[i]) == Lower(token)[i] == n[i];
    }
  }

  /** Upper-casing a name gives a token that names the same type. */
  lemma {:induction false} UpperNameToken(t: AlertType)
    ensures TypeOfToken(Upper(Name(t))) == Some(t)
  {
    var n := Name(t);
    assert |Lower(Upper(n))| == |n|;
    forall i | 0 <= i < |n| ensures Lower(Upper(n))[i] == n[i] {
      assert Lower(Upper(n))[i] == LowerChar(UpperChar(n[i]));
    }
    assert Lower(Upper(n)) == n;
  }

  /** The type's name in upper case: the token the commands write, which
      names the type again. */
  function UpperToken(t: AlertType): (u: string)
    ensures TypeOfToken(u) == Some(t)
  {
    UpperNameToken(t);
    Upper(Name(t))
  }

  /** A title line cut at the boundaries of the pattern's capture groups:
      the prefix `\s*>\s*` as `lead`, `>` and `gap`, then the type token,
      then the `[ \t]+` run and the `.*` rest. */
  datatype TitleLineParts = TitleLineParts(lead: string, gap: string, token: string, space: string, rest: string)

  function Assemble(p: TitleLineParts): string {
    p.lead + (">" + (p.gap + ("[!" + (p.token + ("]" + (p.space + p.rest))))))
  }

  /** The parts a successful match produces. The space run is maximal, as the
      greedy `[ \t]+` makes it, and is absent exactly when the line ends at
      the marker. */
  predicate WellFormed(p: TitleLineParts) {
    && All(p.lead, Whitespace)
    && All(p.gap, Whitespace)
    && TypeOfToken(p.token).Some?
    && All(p.space, HorizontalSpace)
    && All(p.rest, NotLineTerminator)
    && (p.space == [] ==> p.rest == [])
    && (p.rest != [] ==> !IsHorizontalSpace(p.rest[0]))
  }

  /** The indices at which a title line is cut: the `>` at `a`, the `[` at
      `b`, the `]` at `c`, and the start of the rest at `w`. */
  datatype Cuts = Cuts(a: nat, b: nat, c: nat, w: nat)

  /** The shape the pattern demands, read off the indices of the line; the
      type token is only required to hold no `]`. */
  predicate CutsOk(line: string, k: Cuts) {
    && k.a < k.b && k.b + 2 <= k.c < k.w <= |line|
    && AllIn(line, 0, k.a, Whitespace) && line[k.a] == '>'
    && AllIn(line, k.a + 1, k.b, Whitespace) && line[k.b] == '[' && line[k.b + 1] == '!'
    && AllIn(line, k.b + 2, k.c, NotCloseBracket) && line[k.c] == ']'
    && AllIn(line, k.c + 1, k.w, HorizontalSpace)
    && AllIn(line, k.w, |line|, NotLineTerminator)
    && (k.w == k.c + 1 ==> k.w == |line|)
    && (k.w < |line| ==> !IsHorizontalSpace(line[k.w]))
  }

  /** The structural part of the matcher. Every step is forced: `\s*` before
      `>` and before `[` must take the whole whitespace run, the type
      alternatives hold no `]` so the token reaches the first `]`, and the
      greedy `[ \t]+` takes the whole run of spaces and tabs, after which
      `.*$` must reach the end of the line. */
  function MatchCuts(line: string): (r: Option<Cuts>)
    ensures r.Some? ==> CutsOk(line, r.value)
  {
    var a := SpanFrom(line, 0, Whitespace);
    if a == |line| || line[a] != '>' then None
    else
      var b := SpanFrom(line, a + 1, Whitespace);
      if !(b + 2 <= |line| && line[b] == '[' && line[b + 1] == '!') then None
      else
        var c := SpanFrom(line, b + 2, NotCloseBracket);
        if c == |line| then None
        else
          var w := SpanFrom(line, c + 1, HorizontalSpace);
          if c + 1 < |line| && (w == c + 1 || SpanFrom(line, w, NotLineTerminator) < |line|) then None
          else Some(Cuts(a, b, c, w))
  }

  lemma MatchCutsFrom(line: string, k: Cuts)
    requires SpanFrom(line, 0, Whitespace) == k.a < |line| && line[k.a] == '>'
    requires SpanFrom(line, k.a + 1, Whitespace) == k.b && k.b + 2 <= |line| && line[k.b] == '[' && line[k.b + 1] == '!'
    requires SpanFrom(line, k.b + 2, NotCloseBracket) == k.c < |line|
    requires SpanFrom(line, k.c + 1, HorizontalSpace) == k.w
    requires k.c + 1 < |line| ==> k.c + 1 < k.w && SpanFrom(line, k.w, NotLineTerminator) == |line|
    ensures MatchCuts(line) == Some(k)
  {
  }

  /** There is one way to cut a line: the matcher finds every cut the shape
      admits. */
  lemma CutsUnique(line: string, k: Cuts)
    requires CutsOk(line, k)
    ensures MatchCuts(line) == Some(k)
  {
    assert SpanFrom(line, 0, Whitespace) == k.a by {
      SpanFromIs(line, 0, k.a, Whitespace);
    }
    assert SpanFrom(line, k.a + 1, Whitespace) == k.b by {
      SpanFromIs(line, k.a + 1, k.b, Whitespace);
    }
    assert SpanFrom(line, k.b + 2, NotCloseBracket) == k.c by {
      SpanFromIs(line, k.b + 2, k.c, NotCloseBracket);
    }
    assert SpanFrom(line, k.c + 1, HorizontalSpace) == k.w by {
      SpanFromIs(line, k.c + 1, k.w, HorizontalSpace);
    }
    assert SpanFrom(line, k.w, NotLineTerminator) == |line| by {
      SpanFromIs(line, k.w, |line|, NotLineTerminator);
    }
    MatchCutsFrom(line, k);
  }

  /** The parts between the cuts. */
  function PartsAt(line: string, k: Cuts): TitleLineParts
    requires k.a < k.b && k.b + 2 <= k.c < k.w <= |line|
  {
    TitleLineParts(line[..k.a], line[k.a + 1..k.b], line[k.b + 2..k.c], line[k.c + 1..k.w], line[k.w..])
  }

  /** The cuts between the parts. */
  function CutsOf(p: TitleLineParts): Cuts {
    var a := |p.lead|;
    var b := a + 1 + |p.gap|;
    var c := b + 2 + |p.token|;
    Cuts(a, b, c, c + 1 + |p.space|)
  }

  /** Cutting a line at the four boundaries and assembling the pieces gives
      the line back. */
  lemma {:induction false} Reassemble(line: string, a: nat, b: nat, c: nat, w: nat)
    requires a < b && b + 2 <= c < w <= |line|
    requires line[a] == '>' && line[b] == '[' && line[b + 1] == '!' && line[c] == ']'
    ensures Assemble(TitleLineParts(line[..a], line[a + 1..b], line[b + 2..c], line[c + 1..w], line[w..])) == line
  {
    assert line[c + 1..] == line[c + 1..w] + line[w..];
    assert line[c..] == "]" + line[c + 1..];
    assert line[b + 2..] == line[b + 2..c] + line[c..];
    assert line[b..] == "[!" + line[b + 2..];
    assert line[a + 1..] == line[a + 1..b] + line[b..];
    assert line[a..] == ">" + line[a + 1..];
    assert line == line[..a] + line[a..];
  }

  lemma {:induction false} ReassembleAt(line: string, k: Cuts)
    requires k.a < k.b && k.b + 2 <= k.c < k.w <= |line|
    requires line[k.a] == '>' && line[k.b] == '[' && line[k.b + 1] == '!' && line[k.c] == ']'
    ensures Assemble(PartsAt(line, k)) == line
  {
    Reassemble(line, k.a, k.b, k.c, k.w);
  }

  /** The parts of a correctly cut line whose token names a type are
      well-formed and make up the line. */
  lemma {:induction false} PartsAtWellFormed(line: string, k: Cuts)
    requires CutsOk(line, k) && TypeOfToken(line[k.b + 2..k.c]).Some?
    ensures WellFormed(PartsAt(line, k))
  {
    var p := PartsAt(line, k);
    assert All(p.lead, Whitespace) by {
      AllInSlice(line, 0, k.a, Whitespace);
    }
    assert All(p.gap, Whitespace) by {
      AllInSlice(line, k.a + 1, k.b, Whitespace);
    }
    assert All(p.space, HorizontalSpace) by {
      AllInSlice(line, k.c + 1, k.w, HorizontalSpace);
    }
    assert All(p.rest, NotLineTerminator) by {
      AllInSlice(line, k.w, |line|, NotLineTerminator);
    }
  }

  lemma {:induction false} PartsAtSound(line: string, k: Cuts)
    requires CutsOk(line, k) && TypeOfToken(line[k.b + 2..k.c]).Some?
    ensures WellFormed(PartsAt(line, k)) && Assemble(PartsAt(line, k)) == line
  {
    PartsAtWellFormed(line, k);
    ReassembleAt(line, k);
  }

  /** Where each part sits inside the assembled line, character by
      character. */
  lemma {:induction false} AssembleChars(p: TitleLineParts)
    ensures var s := Assemble(p);
      var k := CutsOf(p);
      && |s| == k.w + |p.rest|
      && (forall x :: 0 <= x < k.a ==> s[x] == p.lead[x])
      && s[k.a] == '>'
      && (forall x :: k.a < x < k.b ==> s[x] == p.gap[x - k.a - 1])
      && s[k.b] == '[' && s[k.b + 1] == '!'
      && (forall x :: k.b + 2 <= x < k.c ==> s[x] == p.token[x - k.b - 2])
      && s[k.c] == ']'
      && (forall x :: k.c < x < k.w ==> s[x] == p.space[x - k.c - 1])
      && (forall x :: k.w <= x < |s| ==> s[x] == p.rest[x - k.w])
  {
  }

  /** Assembling well-formed parts gives a line that is cut where the parts
      meet. */
  lemma {:induction false} CutsOfOk(p: TitleLineParts)
    requires WellFormed(p)
    ensures CutsOk(Assemble(p), CutsOf(p))
  {
    AssembleChars(p);
    CutsOfFront(p);
    CutsOfBack(p);
  }

  lemma {:induction false} CutsOfFront(p: TitleLineParts)
    requires WellFormed(p)
    ensures var s := Assemble(p); var k := CutsOf(p);
      && AllIn(s, 0, k.a, Whitespace) && AllIn(s, k.a + 1, k.b, Whitespace) && AllIn(s, k.b + 2, k.c, NotCloseBracket)
  {
    AssembleChars(p);
    TokenHasNoBracket(p.token);
    var s := Assemble(p);
    var k := CutsOf(p);
    assert AllIn(s, 0, k.a, Whitespace) by {
      forall x | 0 <= x < k.a ensures InClass(s[x], Whitespace) {
        assert s[x] == p.lead[x];
      }
    }
    assert AllIn(s, k.a + 1, k.b, Whitespace) by {
      forall x | k.a + 1 <= x < k.b ensures InClass(s[x], Whitespace) {
        assert s[x] == p.gap[x - k.a - 1];
      }
    }
    assert AllIn(s, k.b + 2, k.c, NotCloseBracket) by {
      forall x | k.b + 2 <= x < k.c ensures InClass(s[x], NotCloseBracket) {
        assert s[x] == p.token[x - k.b - 2];
      }
    }
  }

  lemma {:induction false} CutsOfBack(p: TitleLineParts)
    requires WellFormed(p)
    ensures var s := Assemble(p); var k := CutsOf(p);
      && k.w <= |s| && AllIn(s, k.c + 1, k.w, HorizontalSpace) && AllIn(s, k.w, |s|, NotLineTerminator)
  {
    AssembleChars(p);
    var s := Assemble(p);
    var k := CutsOf(p);
    assert AllIn(s, k.c + 1, k.w, HorizontalSpace) by {
      forall x | k.c + 1 <= x < k.w ensures InClass(s[x], HorizontalSpace) {
        assert s[x] == p.space[x - k.c - 1];
      }
    }
    assert AllIn(s, k.w, |s|, NotLineTerminator) by {
      forall x | k.w <= x < |s| ensures InClass(s[x], NotLineTerminator) {
        assert s[x] == p.rest[x - k.w];
      }
    }
  }

  /** Cutting an assembled line where its parts meet gives the parts back. */
  lemma {:induction false} PartsAtCutsOf(p: TitleLineParts)
    requires WellFormed(p)
    ensures CutsOk(Assemble(p), CutsOf(p)) && PartsAt(Assemble(p), CutsOf(p)) == p
  {
    CutsOfOk(p);
    AssembleChars(p);
    var s := Assemble(p);
    var k := CutsOf(p);
    assert s[..k.a] == p.lead;
    assert s[k.a + 1..k.b] == p.gap;
    assert s[k.b + 2..k.c] == p.token;
    assert s[k.c + 1..k.w] == p.space;
    assert s[k.w..] == p.rest;
  }

  /** The matcher for the title-line pattern. `None` stands for `exec`
      returning `null`. What it returns are well-formed parts of the line it
      read. */
  function MatchTitleLine(line: string): (r: Option<TitleLineParts>)
    ensures r.Some? ==> WellFormed(r.value) && Assemble(r.value) == line
  {
    match MatchCuts(line)
    case None => None
    case Some(k) =>
      if TypeOfToken(line[k.b + 2..k.c]).None? then None
      else
        PartsAtSound(line, k);
        Some(PartsAt(line, k))
  }

  /** The matcher recovers the parts of every line it could have produced. */
  lemma MatchAssembled(p: TitleLineParts)
    requires WellFormed(p)
    ensures MatchTitleLine(Assemble(p)) == Some(p)
  {
    PartsAtCutsOf(p);
    CutsUnique(Assemble(p), CutsOf(p));
  }

  /** A 0-based, half-open character range within one line. */
  datatype TextRange = TextRange(from: int, to: int)

  /** The result of `parseGitHubAlertTitleLine`: `null`, `{type, markerRange}`
      or `{type, title, markerRange, markerHideRange}`. */
  datatype ParsedTitleLine =
    | NotAnAlert
    | BareAlert(alertType: AlertType, markerRange: TextRange)
    | TitledAlert(alertType: AlertType, title: string, markerRange: TextRange, markerHideRange: TextRange)

  /** The record built from the captures: the marker starts after the prefix
      and is as long as `[!typeText]`; the title is the trimmed rest, and
      an empty title means no title and no hide range. */
  function Interpret(p: TitleLineParts): ParsedTitleLine
    requires TypeOfToken(p.token).Some?
  {
    var from := |p.lead| + 1 + |p.gap|;
    var marker := TextRange(from, from + |"[!" + p.token + "]"|);
    var title := Trim(p.rest);
    if title == "" then BareAlert(TypeOfToken(p.token).value, marker)
    else TitledAlert(TypeOfToken(p.token).value, title, marker, TextRange(marker.from, marker.to + |p.space|))
  }

  /** The start of `line` up to `end` is what the pattern admits before the
      marker: whitespace and exactly one `>`. */
  predicate IsAlertPrefix(line: string, end: int) {
    exists a :: 0 <= a < end <= |line| && line[a] == '>' && AllIn(line, 0, a, Whitespace) && AllIn(line, a + 1, end, Whitespace)
  }

  /** The text after the marker is the space run and the rest, and trimming
      it trims the rest alone. */
  lemma {:induction false} TrimAfterMarker(line: string, k: Cuts)
    requires CutsOk(line, k)
    ensures var p := PartsAt(line, k); Trim(line[k.c + 1..]) == Trim(p.rest)
  {
    var p := PartsAt(line, k);
    assert line[k.c + 1..] == p.space + p.rest;
    AllInSlice(line, k.c + 1, k.w, HorizontalSpace);
    HorizontalIsWhitespace(p.space);
    TrimAfterWhitespace(p.space, p.rest);
  }

  /** The marker of a correctly cut line spans from its `[` to its `]`. */
  lemma {:induction false} InterpretMarker(line: string, k: Cuts)
    requires CutsOk(line, k) && TypeOfToken(line[k.b + 2..k.c]).Some?
    ensures WellFormed(PartsAt(line, k))
    ensures var r := Interpret(PartsAt(line, k));
      && r.alertType == TypeOfToken(line[k.b + 2..k.c]).value
      && r.markerRange == TextRange(k.b, k.c + 1)
  {
    PartsAtWellFormed(line, k);
  }

  /** The title of a correctly cut line is the trimmed text after its marker,
      and its hide range reaches the end of the space run. */
  lemma {:induction false} InterpretTitle(line: string, k: Cuts)
    requires CutsOk(line, k) && TypeOfToken(line[k.b + 2..k.c]).Some?
    ensures WellFormed(PartsAt(line, k))
    ensures var r := Interpret(PartsAt(line, k));
      && (r.BareAlert? <==> Trim(line[k.c + 1..]) == "")
      && (r.TitledAlert? ==> r.title == Trim(line[k.c + 1..]) && r.markerHideRange == TextRange(k.b, k.w))
  {
    PartsAtWellFormed(line, k);
    TrimAfterMarker(line, k);
  }

  /** How a parse places its marker in the line: after a prefix of
      whitespace and one `>`, as `[!` + a token naming the type + `]`, and
      followed by the end of the line or by a space or tab and text with no
      line terminator. */
  predicate MarkerPlaced(line: string, r: ParsedTitleLine)
    requires !r.NotAnAlert?
  {
    var m := r.markerRange;
    && 0 <= m.from && m.from + 3 < m.to <= |line|
    && IsAlertPrefix(line, m.from)
    && line[m.from] == '[' && line[m.from + 1] == '!' && line[m.to - 1] == ']'
    && Lower(line[m.from + 2..m.to - 1]) == Name(r.alertType)
    && (m.to == |line| || (IsHorizontalSpace(line[m.to]) && AllIn(line, m.to, |line|, NotLineTerminator)))
  }

  /** How a parse reads the title: a bare alert has only whitespace after the
      marker; a titled one has the trimmed text after the marker as title,
      and its hide range runs from the marker over the whole run of spaces
      and tabs after it. */
  predicate TitlePlaced(line: string, r: ParsedTitleLine)
    requires !r.NotAnAlert? && 0 <= r.markerRange.to <= |line|
  {
    var m := r.markerRange;
    && (r.BareAlert? <==> Trim(line[m.to..]) == "")
    && (r.TitledAlert? ==>
          && r.title == Trim(line[m.to..])
          && r.markerHideRange.from == m.from
          && m.to < r.markerHideRange.to <= |line|
          && AllIn(line, m.to, r.markerHideRange.to, HorizontalSpace)
          && (r.markerHideRange.to == |line| || !IsHorizontalSpace(line[r.markerHideRange.to])))
  }

  lemma {:induction false} MarkerPlacedAt(line: string, k: Cuts)
    requires MatchCuts(line) == Some(k) && TypeOfToken(line[k.b + 2..k.c]).Some?
    ensures MarkerPlaced(line, Interpret(PartsAt(line, k)))
  {
    InterpretMarker(line, k);
    MarkerShape(line, k);
    MarkerPlacedOf(line, k, Interpret(PartsAt(line, k)));
  }

  lemma {:induction false} MarkerPlacedOf(line: string, k: Cuts, r: ParsedTitleLine)
    requires k.b + 3 < k.c + 1 <= |line|
    requires IsAlertPrefix(line, k.b)
    requires line[k.b] == '[' && line[k.b + 1] == '!' && line[k.c] == ']'
    requires k.c + 1 == |line| || (IsHorizontalSpace(line[k.c + 1]) && AllIn(line, k.c + 1, |line|, NotLineTerminator))
    requires !r.NotAnAlert?
    requires r.markerRange == TextRange(k.b, k.c + 1) && Lower(line[k.b + 2..k.c]) == Name(r.alertType)
    ensures MarkerPlaced(line, r)
  {
    assert line[k.b + 2..k.c + 1 - 1] == line[k.b + 2..k.c];
  }

  /** The characters around the marker of a matched line. */
  lemma {:induction false} MarkerShape(line: string, k: Cuts)
    requires MatchCuts(line) == Some(k) && TypeOfToken(line[k.b + 2..k.c]).Some?
    ensures k.b + 3 < k.c + 1 <= |line|
    ensures IsAlertPrefix(line, k.b)
    ensures line[k.b] == '[' && line[k.b + 1] == '!' && line[k.c] == ']'
    ensures k.c + 1 == |line| || (IsHorizontalSpace(line[k.c + 1]) && AllIn(line, k.c + 1, |line|, NotLineTerminator))
  {
    var t := TypeOfToken(line[k.b + 2..k.c]).value;
    assert |Name(t)| >= 3;
    assert IsAlertPrefix(line, k.b) by {
      assert 0 <= k.a < k.b <= |line| && line[k.a] == '>' && AllIn(line, 0, k.a, Whitespace) && AllIn(line, k.a + 1, k.b, Whitespace);
    }
    if k.c + 1 < |line| {
      forall x | k.c + 1 <= x < |line| ensures InClass(line[x], NotLineTerminator) {
        if x < k.w {
          assert InClass(line[x], HorizontalSpace);
        }
      }
    }
  }

  lemma {:induction false} TitlePlacedAt(line: string, k: Cuts)
    requires MatchCuts(line) == Some(k) && TypeOfToken(line[k.b + 2..k.c]).Some?
    ensures TitlePlaced(line, Interpret(PartsAt(line, k)))
  {
    InterpretMarker(line, k);
    InterpretTitle(line, k);
    TitlePlacedOf(line, k, Interpret(PartsAt(line, k)));
  }

  lemma {:induction false} TitlePlacedOf(line: string, k: Cuts, r: ParsedTitleLine)
    requires k.c < k.w <= |line| && AllIn(line, k.c + 1, k.w, HorizontalSpace)
    requires k.w == |line| || !IsHorizontalSpace(line[k.w])
    requires k.w == k.c + 1 ==> k.w == |line|
    requires !r.NotAnAlert? && r.markerRange == TextRange(k.b, k.c + 1)
    requires r.BareAlert? <==> Trim(line[k.c + 1..]) == ""
    requires r.TitledAlert? ==> r.title == Trim(line[k.c + 1..]) && r.markerHideRange == TextRange(k.b, k.w)
    ensures TitlePlaced(line, r)
  {
    if k.w == k.c + 1 {
      assert line[k.c + 1..] == [];
    }
  }

  /** `parseGitHubAlertTitleLine` of src/alerts/alertParsing.ts. The ranges
      it returns lie within the line; `ParsePlaced` says where. */
  function ParseTitleLine(line: string): (r: ParsedTitleLine)
    ensures !r.NotAnAlert? ==> 0 <= r.markerRange.from < r.markerRange.to <= |line|
    ensures r.TitledAlert? ==> r.markerHideRange.from == r.markerRange.from && r.markerRange.to < r.markerHideRange.to <= |line|
  {
    match MatchCuts(line)
    case None => NotAnAlert
    case Some(k) =>
      if TypeOfToken(line[k.b + 2..k.c]).None? then NotAnAlert
      else
        InterpretMarker(line, k);
        InterpretTitle(line, k);
        Interpret(PartsAt(line, k))
  }

  /** A parsed line is a prefix of whitespace and one `>`, the marker
      `[!type]` with the type named case-insensitively, and then either
      nothing or a run of spaces and tabs followed by text on the same line;
      the title is that text trimmed, and the hide range covers the marker
      and the run. */
  lemma {:induction false} ParsePlaced(line: string)
    ensures var r := ParseTitleLine(line);
      !r.NotAnAlert? ==> MarkerPlaced(line, r) && TitlePlaced(line, r)
  {
    var r := ParseTitleLine(line);
    if !r.NotAnAlert? {
      var k := ParseCutsOf(line);
      MarkerPlacedAt(line, k);
      TitlePlacedAt(line, k);
    }
  }

  /** The parse is the record built from the matcher's parts. */
  lemma {:induction false} ParseInterprets(line: string)
    ensures ParseTitleLine(line) == match MatchTitleLine(line) case None => NotAnAlert case Some(p) => Interpret(p)
  {
  }

  /** The parse of an assembled line is the record its parts determine. */
  lemma {:induction false} ParseAssembled(p: TitleLineParts)
    requires WellFormed(p)
    ensures ParseTitleLine(Assemble(p)) == Interpret(p)
  {
    MatchAssembled(p);
    ParseInterprets(Assemble(p));
  }

  /** A line is an alert title line exactly when it can be cut into parts of
      the pattern. */
  lemma {:induction false} ParseMatchesGrammar(line: string)
    ensures ParseTitleLine(line).NotAnAlert? <==> forall p :: WellFormed(p) ==> Assemble(p) != line
  {
    ParseInterprets(line);
    if !ParseTitleLine(line).NotAnAlert? {
      var p := MatchTitleLine(line).value;
      assert WellFormed(p) && Assemble(p) == line;
    } else {
      forall p | WellFormed(p) ensures Assemble(p) != line {
        ParseAssembled(p);
      }
    }
  }

  /** A correctly cut line whose token names a type parses to the record of
      its parts, and one whose token names none is not an alert. */
  lemma {:induction false} ParseAt(line: string, k: Cuts)
    requires CutsOk(line, k)
    ensures TypeOfToken(line[k.b + 2..k.c]).Some? ==> ParseTitleLine(line) == Interpret(PartsAt(line, k))
    ensures TypeOfToken(line[k.b + 2..k.c]).None? ==> ParseTitleLine(line).NotAnAlert?
  {
    CutsUnique(line, k);
    ParseOfMatch(line, k);
  }

  /** The parse of a matched line is the record of its parts. */
  lemma {:induction false} ParseOfParts(line: string, k: Cuts, p: TitleLineParts)
    requires MatchCuts(line) == Some(k) && PartsAt(line, k) == p && TypeOfToken(p.token).Some?
    ensures ParseTitleLine(line) == Interpret(p)
  {
    ParseOfMatch(line, k);
  }

  lemma {:induction false} ParseOfMatch(line: string, k: Cuts)
    requires MatchCuts(line) == Some(k)
    ensures TypeOfToken(line[k.b + 2..k.c]).Some? ==> ParseTitleLine(line) == Interpret(PartsAt(line, k))
    ensures TypeOfToken(line[k.b + 2..k.c]).None? ==> ParseTitleLine(line).NotAnAlert?
  {
    if TypeOfToken(line[k.b + 2..k.c]).Some? {
      ParseOfKnownType(line, k);
    } else {
      ParseOfUnknownType(line, k);
    }
  }

  lemma {:induction false} ParseOfKnownType(line: string, k: Cuts)
    requires MatchCuts(line) == Some(k) && TypeOfToken(line[k.b + 2..k.c]).Some?
    ensures ParseTitleLine(line) == Interpret(PartsAt(line, k))
  {
    var m := MatchCuts(line);
    assert m == Some(k);
  }

  lemma {:induction false} ParseOfUnknownType(line: string, k: Cuts)
    requires MatchCuts(line) == Some(k) && TypeOfToken(line[k.b + 2..k.c]).None?
    ensures ParseTitleLine(line).NotAnAlert?
  {
  }

  /** Where the characters of `lead + ">" + gap + "[!" + token + "]" + tail`
      come from. */
  lemma {:induction false} MarkerLineChars(lead: string, gap: string, token: string, tail: string)
    requires All(lead, Whitespace) && All(gap, Whitespace) && All(token, NotCloseBracket)
    ensures var line := lead + (">" + (gap + ("[!" + (token + ("]" + tail)))));
      var b := |lead| + 1 + |gap|;
      var c := b + 2 + |token|;
      && |line| == c + 1 + |tail|
      && AllIn(line, 0, |lead|, Whitespace) && line[|lead|] == '>'
      && AllIn(line, |lead| + 1, b, Whitespace) && line[b] == '[' && line[b + 1] == '!'
      && AllIn(line, b + 2, c, NotCloseBracket) && line[c] == ']'
      && line[b + 2..c] == token
      && line[c + 1..] == tail
  {
    var rest := "[!" + (token + ("]" + tail));
    var line := lead + (">" + (gap + rest));
    var b := |lead| + 1 + |gap|;
    var c := b + 2 + |token|;
    PrefixChars(lead, gap, rest);
    BracketChars(token, tail);
    assert line[b] == rest[0] && line[b + 1] == rest[1] && line[c] == rest[|token| + 2];
    assert AllIn(line, b + 2, c, NotCloseBracket) by {
      forall x | b + 2 <= x < c ensures InClass(line[x], NotCloseBracket) {
        assert line[x] == rest[x - b];
      }
    }
    assert line[b + 2..c] == line[b..][2..|token| + 2] == rest[2..|token| + 2];
    assert line[c + 1..] == line[b..][|token| + 3..] == rest[|token| + 3..];
  }

  /** Where the characters of `"[!" + token + "]" + tail` come from. */
  lemma {:induction false} BracketChars(token: string, tail: string)
    requires All(token, NotCloseBracket)
    ensures var rest := "[!" + (token + ("]" + tail));
      && |rest| == |token| + 3 + |tail|
      && rest[0] == '[' && rest[1] == '!' && rest[|token| + 2] == ']'
      && AllIn(rest, 2, |token| + 2, NotCloseBracket)
      && rest[2..|token| + 2] == token
      && rest[|token| + 3..] == tail
  {
    var rest := "[!" + (token + ("]" + tail));
    assert rest[2..] == token + ("]" + tail);
    assert rest[|token| + 2..] == "]" + tail;
    assert AllIn(rest, 2, |token| + 2, NotCloseBracket) by {
      forall x | 2 <= x < |token| + 2 ensures InClass(rest[x], NotCloseBracket) {
        assert rest[x] == rest[2..][x - 2] == token[x - 2];
      }
    }
    assert rest[2..|token| + 2] == rest[2..][..|token|] == token;
    assert rest[|token| + 3..] == rest[|token| + 2..][1..] == tail;
  }

  /** Every cut of such a line puts its `>`, `[` and `]` where the pieces
      say. */
  lemma {:induction false} CutsOfMarkerLine(lead: string, gap: string, token: string, tail: string, k: Cuts)
    requires All(lead, Whitespace) && All(gap, Whitespace) && All(token, NotCloseBracket)
    requires MatchCuts(lead + (">" + (gap + ("[!" + (token + ("]" + tail)))))) == Some(k)
    ensures k.a == |lead| && k.b == |lead| + 1 + |gap| && k.c == k.b + 2 + |token|
  {
    var line := lead + (">" + (gap + ("[!" + (token + ("]" + tail)))));
    assert CutsOk(line, k);
    var b := |lead| + 1 + |gap|;
    MarkerLineChars(lead, gap, token, tail);
    SpanFromIs(line, 0, |lead|, Whitespace);
    SpanFromIs(line, 0, k.a, Whitespace);
    SpanFromIs(line, |lead| + 1, b, Whitespace);
    SpanFromIs(line, k.a + 1, k.b, Whitespace);
    SpanFromIs(line, b + 2, b + 2 + |token|, NotCloseBracket);
    SpanFromIs(line, k.b + 2, k.c, NotCloseBracket);
  }

  /** After the prefix the marker must begin at once with `[!`: a line whose
      prefix is followed by anything else is not an alert. */
  lemma {:induction false} NoMarkerAfterPrefix(lead: string, gap: string, rest: string)
    requires All(lead, Whitespace) && All(gap, Whitespace)
    requires rest != [] ==> !IsWhitespace(rest[0])
    requires !(|rest| >= 2 && rest[0] == '[' && rest[1] == '!')
    ensures ParseTitleLine(lead + (">" + (gap + rest))).NotAnAlert?
  {
    var line := lead + (">" + (gap + rest));
    var b := |lead| + 1 + |gap|;
    PrefixChars(lead, gap, rest);
    var m := MatchCuts(line);
    if m.Some? {
      SpanFromIs(line, 0, |lead|, Whitespace);
      SpanFromIs(line, |lead| + 1, b, Whitespace);
      assert false;
    }
  }

  /** Where the characters of `lead + ">" + gap + rest` come from. */
  lemma {:induction false} PrefixChars(lead: string, gap: string, rest: string)
    requires All(lead, Whitespace) && All(gap, Whitespace)
    ensures var line := lead + (">" + (gap + rest));
      var b := |lead| + 1 + |gap|;
      && |line| == b + |rest|
      && AllIn(line, 0, |lead|, Whitespace) && line[|lead|] == '>'
      && AllIn(line, |lead| + 1, b, Whitespace)
      && line[b..] == rest
  {
    var line := lead + (">" + (gap + rest));
    var b := |lead| + 1 + |gap|;
    assert line[|lead|..] == ">" + (gap + rest);
    assert line[|lead| + 1..] == gap + rest;
    assert line[b..] == rest;
    assert AllIn(line, 0, |lead|, Whitespace) by {
      forall x | 0 <= x < |lead| ensures InClass(line[x], Whitespace) {
        assert line[x] == lead[x];
      }
    }
    assert AllIn(line, |lead| + 1, b, Whitespace) by {
      forall x | |lead| + 1 <= x < b ensures InClass(line[x], Whitespace) {
        assert line[x] == line[|lead| + 1..][x - |lead| - 1] == gap[x - |lead| - 1];
      }
    }
  }

  /** `>> [!NOTE]` is not a title line: the prefix admits one `>` only. */
  lemma {:induction false} TwoQuoteMarkers(lead: string, gap: string, tail: string)
    requires All(lead, Whitespace) && All(gap, Whitespace)
    ensures ParseTitleLine(lead + (">" + (gap + (">" + tail)))).NotAnAlert?
  {
    NoMarkerAfterPrefix(lead, gap, ">" + tail);
  }

  /** A bracketed token that names none of the five types is not an alert. */
  lemma {:induction false} UnknownType(lead: string, gap: string, token: string, tail: string)
    requires All(lead, Whitespace) && All(gap, Whitespace)
    requires All(token, NotCloseBracket) && TypeOfToken(token).None?
    ensures ParseTitleLine(lead + (">" + (gap + ("[!" + (token + ("]" + tail)))))).NotAnAlert?
  {
    var line := lead + (">" + (gap + ("[!" + (token + ("]" + tail)))));
    var b := |lead| + 1 + |gap|;
    MarkerLineCuts(lead, gap, token, tail);
    UnknownTokenAt(line, b, b + 2 + |token|, token);
  }

  /** The matcher can only cut such a line around the given token. */
  lemma {:induction false} MarkerLineCuts(lead: string, gap: string, token: string, tail: string)
    requires All(lead, Whitespace) && All(gap, Whitespace) && All(token, NotCloseBracket)
    ensures var line := lead + (">" + (gap + ("[!" + (token + ("]" + tail)))));
      var b := |lead| + 1 + |gap|;
      var c := b + 2 + |token|;
      && c <= |line| && line[b + 2..c] == token
      && (MatchCuts(line).Some? ==> MatchCuts(line).value.b == b && MatchCuts(line).value.c == c)
  {
    var line := lead + (">" + (gap + ("[!" + (token + ("]" + tail)))));
    MarkerLineChars(lead, gap, token, tail);
    if MatchCuts(line).Some? {
      CutsOfMarkerLine(lead, gap, token, tail, MatchCuts(line).value);
    }
  }

  /** A line whose only possible cuts enclose a token naming no type is not
      an alert. */
  lemma {:induction false} UnknownTokenAt(line: string, b: nat, c: nat, token: string)
    requires b + 2 <= c <= |line| && line[b + 2..c] == token && TypeOfToken(token).None?
    requires MatchCuts(line).Some? ==> MatchCuts(line).value.b == b && MatchCuts(line).value.c == c
    ensures ParseTitleLine(line).NotAnAlert?
  {
  }

  /** Text glued to the marker, with no space or tab between, is not an alert. */
  lemma {:induction false} GluedAfterMarker(lead: string, gap: string, token: string, c: char, tail: string)
    requires All(lead, Whitespace) && All(gap, Whitespace)
    requires TypeOfToken(token).Some? && !IsHorizontalSpace(c)
    ensures ParseTitleLine(lead + (">" + (gap + ("[!" + (token + ("]" + ([c] + tail))))))).NotAnAlert?
  {
    var line := lead + (">" + (gap + ("[!" + (token + ("]" + ([c] + tail))))));
    TokenHasNoBracket(token);
    MarkerLineCuts(lead, gap, token, [c] + tail);
    MarkerLineChars(lead, gap, token, [c] + tail);
    GluedAt(line, |lead| + 1 + |gap| + 2 + |token|, c, tail);
  }

  /** A line whose only possible `]` is followed by a character other than a
      space or tab has no cuts. */
  lemma {:induction false} GluedAt(line: string, e: nat, c: char, tail: string)
    requires e < |line| && line[e + 1..] == [c] + tail && !IsHorizontalSpace(c)
    requires MatchCuts(line).Some? ==> MatchCuts(line).value.c == e
    ensures MatchCuts(line).None?
  {
    assert line[e + 1] == line[e + 1..][0] == c;
  }

  /** `line'` is `line` with the marker at cuts `k` replaced by the marker of
      `t`, character by character. */
  predicate Spliced(line: string, k: Cuts, t: AlertType, line': string)
    requires k.b <= k.c < |line|
  {
    var n := |MarkerText(t)|;
    && |line'| == |line| - (k.c + 1 - k.b) + n
    && (forall j {:trigger line'[j]} :: 0 <= j < k.b ==> line'[j] == line[j])
    && (forall j {:trigger line'[j]} :: k.b <= j < k.b + n ==> line'[j] == MarkerText(t)[j - k.b])
    && (forall j {:trigger line'[j]} :: k.b + n <= j < |line'| ==> line'[j] == line[j - (k.b + n) + (k.c + 1)])
  }

  /** The cuts of the spliced line: the same `>` and `[`, the `]` and the
      start of the rest moved by the change in length. */
  function SplicedCuts(k: Cuts, t: AlertType): Cuts
    requires k.c < k.w
  {
    var c' := k.b + 2 + |UpperToken(t)|;
    Cuts(k.a, k.b, c', c' + (k.w - k.c))
  }

  lemma {:induction false} SplicePieces(line: string, k: Cuts, t: AlertType)
    requires k.b <= k.c < |line|
    ensures Spliced(line, k, t, line[..k.b] + MarkerText(t) + line[k.c + 1..])
  {
  }

  /** The splice keeps everything before the marker. */
  lemma {:induction false} SplicedPrefix(line: string, k: Cuts, t: AlertType, line': string)
    requires CutsOk(line, k) && Spliced(line, k, t, line')
    ensures AllIn(line', 0, k.a, Whitespace) && line'[k.a] == '>' && AllIn(line', k.a + 1, k.b, Whitespace)
    ensures line'[..k.a] == line[..k.a] && line'[k.a + 1..k.b] == line[k.a + 1..k.b]
  {
  }

  /** The spliced marker is `[!`, the upper-case name, `]`. */
  lemma {:induction false} SplicedMarker(line: string, k: Cuts, t: AlertType, line': string)
    requires CutsOk(line, k) && Spliced(line, k, t, line')
    ensures var c' := SplicedCuts(k, t).c;
      && c' < |line'|
      && line'[k.b] == '[' && line'[k.b + 1] == '!' && line'[c'] == ']'
      && AllIn(line', k.b + 2, c', NotCloseBracket)
      && line'[k.b + 2..c'] == UpperToken(t)
  {
    var u := UpperToken(t);
    var mt := MarkerText(t);
    var c' := k.b + 2 + |u|;
    UpperNameToken(t);
    TokenHasNoBracket(u);
    assert line'[k.b] == mt[0] && line'[k.b + 1] == mt[1] && line'[c'] == mt[|u| + 2];
    assert line'[k.b + 2..c'] == u by {
      forall i | 0 <= i < |u| ensures line'[k.b + 2..c'][i] == u[i] {
        assert line'[k.b + 2..c'][i] == line'[k.b + 2 + i] == mt[2 + i];
      }
    }
    assert AllIn(line', k.b + 2, c', NotCloseBracket) by {
      forall i | k.b + 2 <= i < c' ensures InClass(line'[i], NotCloseBracket) {
        assert line'[i] == u[i - k.b - 2];
      }
    }
  }

  /** Past the marker the spliced line is the old line shifted by
      `|k'.c - k.c|`. */
  lemma {:induction false} SplicedShift(line: string, k: Cuts, t: AlertType, line': string)
    requires CutsOk(line, k) && Spliced(line, k, t, line')
    ensures var c' := SplicedCuts(k, t).c;
      && c' + (|line| - k.c) == |line'|
      && forall j :: c' + 1 <= j < |line'| ==> line'[j] == line[j - c' + k.c]
  {
    assert |MarkerText(t)| == |UpperToken(t)| + 3;
  }

  /** A tail copied `d` places later keeps its space run and its rest:
      the facts the cuts `c < w` give on `line` hold at `c2 < w2` on
      `line2`, and the parts between are the same. */
  lemma {:induction false} ShiftedTail(line: string, line2: string, c: nat, w: nat, c2: nat, w2: nat)
    requires c < w <= |line| && w2 == c2 + (w - c) && |line2| == c2 + (|line| - c)
    requires forall j :: c2 + 1 <= j < |line2| ==> line2[j] == line[j - c2 + c]
    requires AllIn(line, c + 1, w, HorizontalSpace) && AllIn(line, w, |line|, NotLineTerminator)
    requires (w == c + 1 ==> w == |line|) && (w < |line| ==> !IsHorizontalSpace(line[w]))
    ensures c2 < w2 <= |line2|
    ensures AllIn(line2, c2 + 1, w2, HorizontalSpace) && AllIn(line2, w2, |line2|, NotLineTerminator)
    ensures (w2 == c2 + 1 ==> w2 == |line2|) && (w2 < |line2| ==> !IsHorizontalSpace(line2[w2]))
    ensures line2[c2 + 1..w2] == line[c + 1..w] && line2[w2..] == line[w..]
  {
    forall j | c2 + 1 <= j < w2 ensures InClass(line2[j], HorizontalSpace) {
      assert line2[j] == line[j - c2 + c];
    }
    forall j | w2 <= j < |line2| ensures InClass(line2[j], NotLineTerminator) {
      assert line2[j] == line[j - c2 + c];
    }
    if w2 < |line2| {
      assert line2[w2] == line[w];
    }
    var run2, run := line2[c2 + 1..w2], line[c + 1..w];
    assert run2 == run by {
      forall j | 0 <= j < |run| ensures run2[j] == run[j] {
        assert line2[c2 + 1 + j] == line[c + 1 + j];
      }
    }
    assert line2[w2..] == line[w..] by {
      forall j | 0 <= j < |line| - w ensures line2[w2..][j] == line[w..][j] {
        assert line2[w2 + j] == line[w + j];
      }
    }
  }

  /** The space run and the rest keep their classes at their shifted
      positions, and the parts after the marker are the old ones. */
  lemma {:induction false} SplicedTail(line: string, k: Cuts, t: AlertType, line': string)
    requires CutsOk(line, k) && Spliced(line, k, t, line')
    ensures var k' := SplicedCuts(k, t);
      && k'.c < k'.w <= |line'|
      && AllIn(line', k'.c + 1, k'.w, HorizontalSpace)
      && AllIn(line', k'.w, |line'|, NotLineTerminator)
      && (k'.w == k'.c + 1 ==> k'.w == |line'|)
      && (k'.w < |line'| ==> !IsHorizontalSpace(line'[k'.w]))
      && line'[k'.c + 1..k'.w] == line[k.c + 1..k.w]
      && line'[k'.w..] == line[k.w..]
  {
    var k' := SplicedCuts(k, t);
    SplicedShift(line, k, t, line');
    ShiftedTail(line, line', k.c, k.w, k'.c, k'.w);
  }

  /** The moved cuts fit the spliced line. */
  lemma {:induction false} SplicedCutsOk(line: string, k: Cuts, t: AlertType, line': string)
    requires CutsOk(line, k) && Spliced(line, k, t, line')
    ensures MatchCuts(line') == Some(SplicedCuts(k, t))
  {
    SplicedPrefix(line, k, t, line');
    SplicedMarker(line, k, t, line');
    SplicedTail(line, k, t, line');
    CutsUnique(line', SplicedCuts(k, t));
  }

  /** The spliced line is cut by the moved cuts into the old parts with the
      new token. */
  lemma {:induction false} SplicedParts(line: string, k: Cuts, t: AlertType, line': string)
    requires CutsOk(line, k) && Spliced(line, k, t, line')
    requires SplicedCuts(k, t).w <= |line'|
    ensures PartsAt(line', SplicedCuts(k, t)) == PartsAt(line, k).(token := UpperToken(t))
  {
    var k' := SplicedCuts(k, t);
    SplicedPrefix(line, k, t, line');
    SplicedMarker(line, k, t, line');
    SplicedTail(line, k, t, line');
    var p := PartsAt(line, k);
    PartsFromSlices(line', k', p.lead, p.gap, UpperToken(t), p.space, p.rest);
  }

  lemma {:induction false} PartsFromSlices(line: string, k: Cuts, lead: string, gap: string, token: string, space: string, rest: string)
    requires k.a < k.b && k.b + 2 <= k.c < k.w <= |line|
    requires line[..k.a] == lead && line[k.a + 1..k.b] == gap && line[k.b + 2..k.c] == token
    requires line[k.c + 1..k.w] == space && line[k.w..] == rest
    ensures PartsAt(line, k) == TitleLineParts(lead, gap, token, space, rest)
  {
  }

  /** A spliced line parses to the old parts with the new token. */
  lemma {:induction false} SplicedParse(line: string, k: Cuts, t: AlertType, line': string)
    requires CutsOk(line, k) && Spliced(line, k, t, line')
    ensures ParseTitleLine(line') == Interpret(PartsAt(line, k).(token := UpperToken(t)))
  {
    var k' := SplicedCuts(k, t);
    SplicedCutsOk(line, k, t, line');
    SplicedParts(line, k, t, line');
    ParseOfParts(line', k', PartsAt(line, k).(token := UpperToken(t)));
  }

  /** Swapping the token of some parts for another type's upper-case name
      changes the type and the marker's length and nothing else. */
  lemma {:induction false} RetypedInterpret(p: TitleLineParts, t: AlertType, r: ParsedTitleLine, r': ParsedTitleLine)
    requires TypeOfToken(p.token).Some?
    requires r == Interpret(p) && r' == Interpret(p.(token := UpperToken(t)))
    ensures !r'.NotAnAlert?
    ensures r'.alertType == t
    ensures r'.markerRange == TextRange(r.markerRange.from, r.markerRange.from + |MarkerText(t)|)
    ensures r'.BareAlert? == r.BareAlert?
    ensures r.TitledAlert? ==>
      r'.title == r.title && r'.markerHideRange.to - r'.markerRange.to == r.markerHideRange.to - r.markerRange.to
  {
    UpperNameToken(t);
  }

  /** Writing another type's marker over the marker range of a title line
      gives a title line of that type with the same prefix and the same
      title; the hide range keeps the same space run. */
  lemma {:induction false} ReplaceMarker(line: string, t: AlertType)
    requires !ParseTitleLine(line).NotAnAlert?
    ensures
      var r := ParseTitleLine(line);
      var m := r.markerRange;
      var r' := ParseTitleLine(line[..m.from] + MarkerText(t) + line[m.to..]);
      && !r'.NotAnAlert?
      && r'.alertType == t
      && r'.markerRange == TextRange(m.from, m.from + |MarkerText(t)|)
      && r'.BareAlert? == r.BareAlert?
      && (r.TitledAlert? ==>
            r'.title == r.title && r'.markerHideRange.to - r'.markerRange.to == r.markerHideRange.to - m.to)
  {
    var r := ParseTitleLine(line);
    var k := ParseCutsOf(line);
    var line' := line[..k.b] + MarkerText(t) + line[k.c + 1..];
    assert line[..r.markerRange.from] + MarkerText(t) + line[r.markerRange.to..] == line';
    ReplaceMarkerAt(line, k, t);
    RetypedInterpret(PartsAt(line, k), t, r, ParseTitleLine(line'));
  }

  /** An alert's record is read off the cuts the matcher finds. */
  lemma {:induction false} ParseCutsOf(line: string) returns (k: Cuts)
    requires !ParseTitleLine(line).NotAnAlert?
    ensures MatchCuts(line) == Some(k) && TypeOfToken(line[k.b + 2..k.c]).Some?
    ensures var r := ParseTitleLine(line);
      && r == Interpret(PartsAt(line, k))
      && r.markerRange.from == k.b && r.markerRange.to == k.c + 1
  {
    k := MatchCuts(line).value;
    ParseAt(line, k);
  }

  /** The splice at given cuts parses to the old parts with the new token. */
  lemma {:induction false} ReplaceMarkerAt(line: string, k: Cuts, t: AlertType)
    requires MatchCuts(line) == Some(k)
    ensures ParseTitleLine(line[..k.b] + MarkerText(t) + line[k.c + 1..]) == Interpret(PartsAt(line, k).(token := UpperToken(t)))
  {
    SplicePieces(line, k, t);
    SplicedParse(line, k, t, line[..k.b] + MarkerText(t) + line[k.c + 1..]);
  }

  /** A concrete line parses to the value its cuts and parts give. */
  lemma {:induction false} ParseExample(line: string, k: Cuts, p: TitleLineParts, r: ParsedTitleLine)
    requires CutsOk(line, k) && PartsAt(line, k) == p
    requires TypeOfToken(p.token).Some? && Interpret(p) == r
    ensures ParseTitleLine(line) == r
  {
    ParseAt(line, k);
  }

  lemma BareCuts()
    ensures CutsOk("> [!NOTE]", Cuts(0, 2, 8, 9))
  {
  }

  lemma BareParts()
    ensures PartsAt("> [!NOTE]", Cuts(0, 2, 8, 9)) == TitleLineParts("", " ", "NOTE", "", "")
  {
    assert "> [!NOTE]"[4..8] == "NOTE";
  }

  lemma BareValue()
    ensures TypeOfToken("NOTE") == Some(Note) && Interpret(TitleLineParts("", " ", "NOTE", "", "")) == BareAlert(Note, TextRange(2, 9))
  {
  }

  /** `> [!NOTE]`: a bare note alert whose marker `[!NOTE]` spans 2..9. */
  lemma ExampleBare()
    ensures ParseTitleLine("> [!NOTE]") == BareAlert(Note, TextRange(2, 9))
  {
    BareCuts();
    BareParts();
    BareValue();
    ParseExample("> [!NOTE]", Cuts(0, 2, 8, 9), TitleLineParts("", " ", "NOTE", "", ""), BareAlert(Note, TextRange(2, 9)));
  }

  lemma TitledCuts()
    ensures CutsOk("> [!warning] Optional title", Cuts(0, 2, 11, 13))
  {
  }

  lemma TitledParts()
    ensures PartsAt("> [!warning] Optional title", Cuts(0, 2, 11, 13)) == TitleLineParts("", " ", "warning", " ", "Optional title")
  {
    var line := "> [!warning] Optional title";
    assert line == "> [!" + "warning" + "]" + " " + "Optional title";
    assert line[..0] == "" && line[1..2] == " " && line[4..11] == "warning";
    assert line[12..13] == " " && line[13..] == "Optional title";
  }

  lemma TitledValue()
    ensures TypeOfToken("warning") == Some(Warning) && Interpret(TitleLineParts("", " ", "warning", " ", "Optional title")) == TitledAlert(Warning, "Optional title", TextRange(2, 12), TextRange(2, 13))
  {
  }

  /** `> [!warning] Optional title`: the type is case-insensitive and the hide
      range is the marker and the one space after it. */
  lemma ExampleTitled()
    ensures ParseTitleLine("> [!warning] Optional title") == TitledAlert(Warning, "Optional title", TextRange(2, 12), TextRange(2, 13))
  {
    TitledCuts();
    TitledParts();
    TitledValue();
    ParseExample("> [!warning] Optional title", Cuts(0, 2, 11, 13), TitleLineParts("", " ", "warning", " ", "Optional title"), TitledAlert(Warning, "Optional title", TextRange(2, 12), TextRange(2, 13)));
  }

  lemma MixedCaseCuts()
    ensures CutsOk("> [!Tip] My title", Cuts(0, 2, 7, 9))
  {
  }

  lemma MixedCaseParts()
    ensures PartsAt("> [!Tip] My title", Cuts(0, 2, 7, 9)) == TitleLineParts("", " ", "Tip", " ", "My title")
  {
    assert "> [!Tip] My title"[4..7] == "Tip";
  }

  lemma MixedCaseValue()
    ensures TypeOfToken("Tip") == Some(Tip) && Interpret(TitleLineParts("", " ", "Tip", " ", "My title")) == TitledAlert(Tip, "My title", TextRange(2, 8), TextRange(2, 9))
  {
  }

  /** `> [!Tip] My title`: the ranges follow the token as written. */
  lemma ExampleMixedCase()
    ensures ParseTitleLine("> [!Tip] My title") == TitledAlert(Tip, "My title", TextRange(2, 8), TextRange(2, 9))
  {
    MixedCaseCuts();
    MixedCaseParts();
    MixedCaseValue();
    ParseExample("> [!Tip] My title", Cuts(0, 2, 7, 9), TitleLineParts("", " ", "Tip", " ", "My title"), TitledAlert(Tip, "My title", TextRange(2, 8), TextRange(2, 9)));
  }

  lemma IndentedCuts()
    ensures CutsOk("   >    [!NOTE]   Title", Cuts(3, 8, 14, 18))
  {
  }

  lemma IndentedParts()
    ensures PartsAt("   >    [!NOTE]   Title", Cuts(3, 8, 14, 18)) == TitleLineParts("   ", "    ", "NOTE", "   ", "Title")
  {
    assert "   >    [!NOTE]   Title"[10..14] == "NOTE";
  }

  lemma IndentedValue()
    ensures TypeOfToken("NOTE") == Some(Note) && Interpret(TitleLineParts("   ", "    ", "NOTE", "   ", "Title")) == TitledAlert(Note, "Title", TextRange(8, 15), TextRange(8, 18))
  {
  }

  /** `   >    [!NOTE]   Title`: indentation around `>`, and a hide range over
      all three spaces after the marker. */
  lemma ExampleIndented()
    ensures ParseTitleLine("   >    [!NOTE]   Title") == TitledAlert(Note, "Title", TextRange(8, 15), TextRange(8, 18))
  {
    IndentedCuts();
    IndentedParts();
    IndentedValue();
    ParseExample("   >    [!NOTE]   Title", Cuts(3, 8, 14, 18), TitleLineParts("   ", "    ", "NOTE", "   ", "Title"), TitledAlert(Note, "Title", TextRange(8, 15), TextRange(8, 18)));
  }

  lemma IndentedBareCuts()
    ensures CutsOk("   >    [!Tip]", Cuts(3, 8, 13, 14))
  {
  }

  lemma IndentedBareParts()
    ensures PartsAt("   >    [!Tip]", Cuts(3, 8, 13, 14)) == TitleLineParts("   ", "    ", "Tip", "", "")
  {
    assert "   >    [!Tip]"[10..13] == "Tip";
  }

  lemma IndentedBareValue()
    ensures TypeOfToken("Tip") == Some(Tip) && Interpret(TitleLineParts("   ", "    ", "Tip", "", "")) == BareAlert(Tip, TextRange(8, 14))
  {
  }

  /** `   >    [!Tip]`: an indented bare alert in mixed case. */
  lemma ExampleIndentedBare()
    ensures ParseTitleLine("   >    [!Tip]") == BareAlert(Tip, TextRange(8, 14))
  {
    IndentedBareCuts();
    IndentedBareParts();
    IndentedBareValue();
    ParseExample("   >    [!Tip]", Cuts(3, 8, 13, 14), TitleLineParts("   ", "    ", "Tip", "", ""), BareAlert(Tip, TextRange(8, 14)));
  }

  /** A marker with no `>` before it is not an alert. */
  lemma ExampleNoQuote()
    ensures ParseTitleLine("[!NOTE] Title").NotAnAlert?
  {
    var line := "[!NOTE] Title";
    SpanFromIs(line, 0, 0, Whitespace);
    if MatchCuts(line).Some? {
      assert false;
    }
  }

  /** A marker without its `!` is not an alert. */
  lemma ExampleNoBang()
    ensures ParseTitleLine("> [NOTE] Title").NotAnAlert?
  {
    assert "> [NOTE] Title" == "" + (">" + (" " + "[NOTE] Title"));
    NoMarkerAfterPrefix("", " ", "[NOTE] Title");
  }

  /** `> [!unknown] Title` names no type. */
  lemma ExampleUnknown()
    ensures ParseTitleLine("> [!unknown] Title").NotAnAlert?
  {
    assert "> [!unknown] Title" == "" + (">" + (" " + ("[!" + ("unknown" + ("]" + " Title")))));
    assert Lower("unknown") == "unknown";
    UnknownType("", " ", "unknown", " Title");
  }

  /** `>> [!NOTE]` has two `>`. */
  lemma ExampleNested()
    ensures ParseTitleLine(">> [!NOTE]").NotAnAlert?
  {
    assert ">> [!NOTE]" == "" + (">" + ("" + (">" + " [!NOTE]")));
    TwoQuoteMarkers("", "", " [!NOTE]");
  }
}
