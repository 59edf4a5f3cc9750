/** The string primitives of JavaScript that the alert code relies on:
    the `\s` character class, `trim`, `split('\n')`, `join('\n')`,
    `indexOf`, `replace` of a first occurrence, and ASCII case mapping.
    Offsets count characters. */
module Text {

  /** `\s` in a JavaScript regular expression, which is also the set of
      characters `String.prototype.trim` removes: the ECMAScript WhiteSpace
      and LineTerminator code points. */
  predicate IsWhitespace(c: char) {
    || c == '\t' || c == '\n' || c == '\U{000B}' || c == '\U{000C}' || c == '\r' || c == ' '
    || c == '\U{00A0}' || c == '\U{1680}' || ('\U{2000}' <= c <= '\U{200A}')
    || c == '\U{2028}' || c == '\U{2029}' || c == '\U{202F}' || c == '\U{205F}'
    || c == '\U{3000}' || c == '\U{FEFF}'
  }

  /** The characters a regular-expression `.` refuses to match. */
  predicate IsLineTerminator(c: char) {
    c == '\n' || c == '\r' || c == '\U{2028}' || c == '\U{2029}'
  }

  /** The class `[ \t]`. */
  predicate IsHorizontalSpace(c: char) {
    c == ' ' || c == '\t'
  }

  /** The character classes whose maximal runs the matchers below measure. */
  datatype CharClass = Whitespace | HorizontalSpace | QuoteOrWhitespace | NotCloseBracket | NotLineFeed | NotLineTerminator

  predicate InClass(c: char, k: CharClass) {
    match k
    case Whitespace => IsWhitespace(c)
    case HorizontalSpace => IsHorizontalSpace(c)
    case QuoteOrWhitespace => c == '>' || IsWhitespace(c)
    case NotCloseBracket => c != ']'
    case NotLineFeed => c != '\n'
    case NotLineTerminator => !IsLineTerminator(c)
  }

  predicate All(s: string, k: CharClass) {
    forall i :: 0 <= i < |s| ==> InClass(s[i], k)
  }

  /** Every character of `s` at an index in `[lo, hi)` is of class `k`. */
  predicate AllIn(s: string, lo: int, hi: int, k: CharClass) {
    forall x :: lo <= x < hi && 0 <= x < |s| ==> InClass(s[x], k)
  }

  lemma AllInSlice(s: string, lo: nat, hi: nat, k: CharClass)
    requires lo <= hi <= |s|
    ensures AllIn(s, lo, hi, k) <==> All(s[lo..hi], k)
  {
    if AllIn(s, lo, hi, k) {
      forall i | 0 <= i < hi - lo ensures InClass(s[lo..hi][i], k) {
        assert s[lo..hi][i] == s[lo + i];
      }
    }
    if All(s[lo..hi], k) {
      forall x | lo <= x < hi ensures InClass(s[x], k) {
        assert s[x] == s[lo..hi][x - lo];
      }
    }
  }

  /** The index where the run of class-`k` characters starting at `i` ends:
      what a greedy `k*` starting at `i` consumes. */
  function SpanFrom(s: string, i: nat, k: CharClass): (j: nat)
    requires i <= |s|
    ensures i <= j <= |s| && AllIn(s, i, j, k)
    ensures j < |s| ==> !InClass(s[j], k)
    decreases |s| - i
  {
    if i == |s| || !InClass(s[i], k) then i else SpanFrom(s, i + 1, k)
  }

  /** A run is determined by where it starts: any end that closes a run of
      class-`k` characters is the one `SpanFrom` finds. */
  lemma {:induction false} SpanFromIs(s: string, i: nat, j: nat, k: CharClass)
    requires i <= j <= |s| && AllIn(s, i, j, k)
    requires j < |s| ==> !InClass(s[j], k)
    ensures SpanFrom(s, i, k) == j
    decreases j - i
  {
    if i < j {
      SpanFromIs(s, i + 1, j, k);
    }
  }

  /** Length of the longest prefix of `s` made of characters of class `k`,
      which is what a greedy `k*` consumes. */
  function Span(s: string, k: CharClass): (n: nat)
    ensures n <= |s| && All(s[..n], k)
    ensures n < |s| ==> !InClass(s[n], k)
  {
    if s == [] || !InClass(s[0], k) then 0 else 1 + Span(s[1..], k)
  }

  lemma {:induction false} SpanConcat(a: string, b: string, k: CharClass)
    requires All(a, k)
    ensures Span(a + b, k) == |a| + Span(b, k)
  {
    if a != [] {
      assert (a + b)[1..] == a[1..] + b;
      SpanConcat(a[1..], b, k);
    } else {
      assert a + b == b;
    }
  }

  lemma SpanAll(s: string, k: CharClass)
    requires All(s, k)
    ensures Span(s, k) == |s|
  {
    SpanConcat(s, [], k);
    assert s + [] == s;
  }

  /** `s` without its leading whitespace. */
  function TrimStart(s: string): string
    decreases |s|
  {
    if s != [] && IsWhitespace(s[0]) then TrimStart(s[1..]) else s
  }

  /** `s` without its trailing whitespace. */
  function TrimEnd(s: string): string
    decreases |s|
  {
    if s != [] && IsWhitespace(s[|s| - 1]) then TrimEnd(s[..|s| - 1]) else s
  }

  /** `String.prototype.trim`. */
  function Trim(s: string): string {
    TrimEnd(TrimStart(s))
  }

  /** The start of the run of class-`k` characters that ends at `j`. */
  function SpanBack(s: string, j: nat, k: CharClass): (i: nat)
    requires j <= |s|
    ensures i <= j && AllIn(s, i, j, k)
    ensures 0 < i ==> !InClass(s[i - 1], k)
  {
    if j == 0 || !InClass(s[j - 1], k) then j else SpanBack(s, j - 1, k)
  }

  /** A run is determined by where it ends, too. */
  lemma {:induction false} SpanBackIs(s: string, i: nat, j: nat, k: CharClass)
    requires i <= j <= |s| && AllIn(s, i, j, k)
    requires 0 < i ==> !InClass(s[i - 1], k)
    ensures SpanBack(s, j, k) == i
    decreases j - i
  {
    if i < j {
      SpanBackIs(s, i, j - 1, k);
    }
  }

  lemma {:induction false} TrimStartFrom(s: string, i: nat)
    requires i <= |s|
    ensures TrimStart(s[i..]) == s[SpanFrom(s, i, Whitespace)..]
    decreases |s| - i
  {
    if i < |s| && IsWhitespace(s[i]) {
      assert s[i..][1..] == s[i + 1..];
      TrimStartFrom(s, i + 1);
    }
  }

  lemma {:induction false} TrimEndTo(s: string, j: nat)
    requires j <= |s|
    ensures TrimEnd(s[..j]) == s[..SpanBack(s, j, Whitespace)]
  {
    if j > 0 && IsWhitespace(s[j - 1]) {
      assert s[..j][..j - 1] == s[..j - 1];
      TrimEndTo(s, j - 1);
    }
  }

  /** `trim` cuts whitespace off both ends and nothing else: what it returns
      is a slice of its input with only whitespace around it, and begins and
      ends with a character that is not whitespace. */
  lemma TrimSpec(s: string)
    ensures var r := Trim(s);
      && (r == [] || (!IsWhitespace(r[0]) && !IsWhitespace(r[|r| - 1])))
      && exists i, j :: 0 <= i <= j <= |s| && r == s[i..j] && AllIn(s, 0, i, Whitespace) && AllIn(s, j, |s|, Whitespace)
  {
    var i, j := TrimBounds(s);
    assert 0 <= i <= j <= |s| && Trim(s) == s[i..j] && AllIn(s, 0, i, Whitespace) && AllIn(s, j, |s|, Whitespace);
  }

  /** The bounds of the trimmed slice. */
  lemma {:induction false} TrimBounds(s: string) returns (i: nat, j: nat)
    ensures i <= j <= |s| && Trim(s) == s[i..j]
    ensures AllIn(s, 0, i, Whitespace) && AllIn(s, j, |s|, Whitespace)
    ensures i < j ==> !IsWhitespace(s[i]) && !IsWhitespace(s[j - 1])
  {
    i := SpanFrom(s, 0, Whitespace);
    TrimStartSpan(s);
    var t := s[i..];
    var e := SpanBack(t, |t|, Whitespace);
    TrimEndSpan(t);
    j := i + e;
    DropThenTake(s, i, e);
    TailAfterDrop(s, i, e);
  }

  /** `TrimStart` drops the leading whitespace run. */
  lemma {:induction false} TrimStartSpan(s: string)
    ensures TrimStart(s) == s[SpanFrom(s, 0, Whitespace)..]
  {
    TrimStartFrom(s, 0);
    assert s[0..] == s;
  }

  /** `TrimEnd` drops the trailing whitespace run. */
  lemma {:induction false} TrimEndSpan(t: string)
    ensures TrimEnd(t) == t[..SpanBack(t, |t|, Whitespace)]
  {
    TrimEndTo(t, |t|);
    assert t[..|t|] == t;
  }

  lemma {:induction false} DropThenTake(s: string, i: nat, e: nat)
    requires i + e <= |s|
    ensures s[i..][..e] == s[i..i + e]
  {
  }

  /** Facts about the end of `s[i..]` moved to `s`. */
  lemma {:induction false} TailAfterDrop(s: string, i: nat, e: nat)
    requires i + e <= |s| && AllIn(s[i..], e, |s| - i, Whitespace)
    requires 0 < e ==> !IsWhitespace(s[i..][e - 1])
    ensures AllIn(s, i + e, |s|, Whitespace)
    ensures 0 < e ==> !IsWhitespace(s[i + e - 1])
  {
    var t := s[i..];
    forall x | i + e <= x < |s| ensures InClass(s[x], Whitespace) {
      assert s[x] == t[x - i];
    }
    if 0 < e {
      assert s[i + e - 1] == t[e - 1];
    }
  }

  lemma {:induction false} TrimStartOfWhitespace(w: string, s: string)
    requires All(w, Whitespace)
    ensures TrimStart(w + s) == TrimStart(s)
    decreases |w|
  {
    if w != [] {
      assert (w + s)[1..] == w[1..] + s;
      TrimStartOfWhitespace(w[1..], s);
    } else {
      assert w + s == s;
    }
  }

  lemma TrimOfWhitespace(s: string)
    requires All(s, Whitespace)
    ensures Trim(s) == []
  {
    TrimStartOfWhitespace(s, []);
    assert s + [] == s;
  }

  /** Leading whitespace never changes what `trim` returns. */
  lemma TrimAfterWhitespace(w: string, s: string)
    requires All(w, Whitespace)
    ensures Trim(w + s) == Trim(s)
  {
    TrimStartOfWhitespace(w, s);
  }

  lemma HorizontalIsWhitespace(s: string)
    requires All(s, HorizontalSpace)
    ensures All(s, Whitespace)
  {
  }

  /** ASCII case mapping: the only case mapping the alert tokens meet, since a
      case-insensitive regular expression without the `u` flag never folds a
      non-ASCII character onto an ASCII letter. */
  function LowerChar(c: char): char {
    if 'A' <= c <= 'Z' then (c as int + 32) as char else c
  }

  function UpperChar(c: char): char {
    if 'a' <= c <= 'z' then (c as int - 32) as char else c
  }

  function Lower(s: string): string {
    seq(|s|, i requires 0 <= i < |s| => LowerChar(s[i]))
  }

  function Upper(s: string): string {
    seq(|s|, i requires 0 <= i < |s| => UpperChar(s[i]))
  }

  /** `lines.join('\n')`. */
  function Join(lines: seq<string>): string {
    if |lines| == 0 then "" else if |lines| == 1 then lines[0] else lines[0] + "\n" + Join(lines[1..])
  }

  predicate NoLineFeeds(lines: seq<string>) {
    forall i :: 0 <= i < |lines| ==> '\n' !in lines[i]
  }

  /** `s.split('\n')`: the pieces between line feeds, at least one. */
  function Split(s: string): (lines: seq<string>)
    ensures |lines| >= 1 && NoLineFeeds(lines)
    ensures Join(lines) == s
    decreases |s|
  {
    var n := Span(s, NotLineFeed);
    if n == |s| then
      assert s[..n] == s;
      [s]
    else
      assert s == s[..n] + "\n" + s[n + 1..];
      [s[..n]] + Split(s[n + 1..])
  }

  /** Splitting undoes joining lines that hold no line feed. */
  lemma {:induction false} SplitJoin(lines: seq<string>)
    requires |lines| >= 1 && NoLineFeeds(lines)
    ensures Split(Join(lines)) == lines
  {
    var s := Join(lines);
    assert All(lines[0], NotLineFeed);
    if |lines| == 1 {
      SpanAll(lines[0], NotLineFeed);
    } else {
      var rest := Join(lines[1..]);
      assert s == lines[0] + ("\n" + rest);
      SpanConcat(lines[0], "\n" + rest, NotLineFeed);
      var n := Span(s, NotLineFeed);
      assert n == |lines[0]|;
      assert s[..n] == lines[0];
      assert s[n + 1..] == rest;
      SplitJoin(lines[1..]);
    }
  }

  function CountLineFeeds(s: string): nat {
    if s == [] then 0 else (if s[0] == '\n' then 1 else 0) + CountLineFeeds(s[1..])
  }

  lemma {:induction false} CountConcat(a: string, b: string)
    ensures CountLineFeeds(a + b) == CountLineFeeds(a) + CountLineFeeds(b)
  {
    if a != [] {
      assert (a + b)[1..] == a[1..] + b;
      CountConcat(a[1..], b);
    } else {
      assert a + b == b;
    }
  }

  lemma {:induction false} CountNone(a: string)
    requires '\n' !in a
    ensures CountLineFeeds(a) == 0
  {
    if a != [] {
      assert '\n' !in a[1..];
      CountNone(a[1..]);
    }
  }

  /** `split('\n')` yields one more piece than there are line feeds. */
  lemma {:induction false} SplitCount(s: string)
    ensures |Split(s)| == CountLineFeeds(s) + 1
    decreases |s|
  {
    var n := Span(s, NotLineFeed);
    assert '\n' !in s[..n];
    if n == |s| {
      assert s[..n] == s;
      CountNone(s);
    } else {
      assert s == s[..n] + ("\n" + s[n + 1..]);
      CountConcat(s[..n], "\n" + s[n + 1..]);
      CountNone(s[..n]);
      assert ("\n" + s[n + 1..])[1..] == s[n + 1..];
      SplitCount(s[n + 1..]);
    }
  }

  predicate OccursAt(s: string, pat: string, i: int) {
    0 <= i && i + |pat| <= |s| && s[i..i + |pat|] == pat
  }

  predicate NoOccurrence(s: string, pat: string, lo: int, hi: int) {
    forall j :: lo <= j < hi ==> !OccursAt(s, pat, j)
  }

  function IndexFrom(s: string, pat: string, i: nat): (r: int)
    requires i <= |s|
    ensures r == -1 || (i <= r && OccursAt(s, pat, r))
    ensures NoOccurrence(s, pat, i, if r == -1 then |s| + 1 else r)
    decreases |s| - i
  {
    if OccursAt(s, pat, i) then i
    else if i == |s| then -1
    else IndexFrom(s, pat, i + 1)
  }

  /** `s.indexOf(pat)`: where `pat` first occurs in `s`, or -1. */
  function IndexOf(s: string, pat: string): (r: int)
    ensures r == -1 || OccursAt(s, pat, r)
    ensures NoOccurrence(s, pat, 0, if r == -1 then |s| + 1 else r)
  {
    IndexFrom(s, pat, 0)
  }

  /** `s.replace(pat, '')` for a string pattern; RemoveFirstSpec says what
      it gives. */
  function RemoveFirst(s: string, pat: string): string {
    var i := IndexOf(s, pat);
    if i == -1 then s else s[..i] + s[i + |pat|..]
  }

  /** The text is unchanged when `pat` does not occur, otherwise its first
      occurrence is cut out. */
  lemma RemoveFirstSpec(s: string, pat: string)
    ensures NoOccurrence(s, pat, 0, |s| + 1) ==> RemoveFirst(s, pat) == s
    ensures forall i :: OccursAt(s, pat, i) && NoOccurrence(s, pat, 0, i) ==> RemoveFirst(s, pat) == s[..i] + s[i + |pat|..]
  {
  }
}
