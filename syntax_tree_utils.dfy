/** The helpers of syntaxTreeUtils.ts that turn a cursor position into the
    places where the syntax tree is looked up, find a paragraph node there,
    and line-align the spans of paragraph nodes. */
module SyntaxTreeUtils {
  import opened Wrappers
  import opened Text
  import opened Editor
  import opened Sorting

  /** A regular expression applied to a line with `exec`, as the length of
      `match[0]` when it matches. */
  type PrefixMatcher = string -> Option<nat>

  /** `Math.min(Math.max(pos, 0), max)`. */
  function Clamp(pos: int, max: nat): (r: nat)
    ensures r <= max
    ensures 0 <= pos <= max ==> r == pos
  {
    if pos < 0 then 0 else if pos > max then max else pos
  }

  function ClampAll(s: seq<int>, max: nat): (r: seq<int>)
    ensures |r| == |s|
    ensures forall i :: 0 <= i < |s| ==> r[i] == Clamp(s[i], max)
  {
    seq(|s|, i requires 0 <= i < |s| => Clamp(s[i], max))
  }

  /** A sequence without its repeats: each value is kept where it first
      occurs. */
  function KeepFirst(s: seq<int>): seq<int>
    decreases |s|
  {
    if s == [] then []
    else
      var rest := KeepFirst(s[..|s| - 1]);
      if s[|s| - 1] in s[..|s| - 1] then rest else rest + [s[|s| - 1]]
  }

  predicate NoRepeats(s: seq<int>) {
    forall i, j :: 0 <= i < j < |s| ==> s[i] != s[j]
  }

  /** `KeepFirst` drops repeats and nothing else: it keeps every value, adds
      none, repeats none, and starts with the first value. */
  lemma {:induction false} KeepFirstSpec(s: seq<int>)
    ensures forall x :: x in KeepFirst(s) <==> x in s
    ensures NoRepeats(KeepFirst(s))
    ensures s != [] ==> |KeepFirst(s)| >= 1 && KeepFirst(s)[0] == s[0]
    decreases |s|
  {
    if s != [] {
      var init := s[..|s| - 1];
      KeepFirstSpec(init);
      if init != [] {
        assert init[0] == s[0];
      }
      forall x ensures x in s <==> x in init || x == s[|s| - 1] {
        assert s == init + [s[|s| - 1]];
      }
    }
  }

  /** Where `x` first occurs in `s`: `s.indexOf(x)`. */
  function FirstIndex(s: seq<int>, x: int): (i: nat)
    requires x in s
    ensures i < |s| && s[i] == x && x !in s[..i]
    decreases |s|
  {
    if s[0] == x then 0
    else
      var i := 1 + FirstIndex(s[1..], x);
      assert s[..i] == [s[0]] + s[1..][..i - 1];
      i
  }

  /** Appending values does not move a first occurrence. */
  lemma {:induction false} FirstIndexInit(s: seq<int>, x: int)
    requires s != [] && x in s[..|s| - 1]
    ensures FirstIndex(s, x) == FirstIndex(s[..|s| - 1], x)
    decreases |s|
  {
    var init := s[..|s| - 1];
    if s[0] != x {
      assert init[0] == s[0];
      assert init[1..] == s[1..][..|s[1..]| - 1];
      FirstIndexInit(s[1..], x);
    }
  }

  /** A value that first occurs last is found there. */
  lemma {:induction false} FirstIndexLast(s: seq<int>)
    requires s != [] && s[|s| - 1] !in s[..|s| - 1]
    ensures FirstIndex(s, s[|s| - 1]) == |s| - 1
    decreases |s|
  {
    if |s| > 1 {
      var init := s[..|s| - 1];
      assert init[0] == s[0];
      assert s[1..][..|s[1..]| - 1] == init[1..];
      FirstIndexLast(s[1..]);
    }
  }

  /** `KeepFirst` keeps the values in the order of their first
      occurrences. */
  lemma {:induction false} KeepFirstOrder(s: seq<int>)
    ensures forall i, j :: 0 <= i < j < |KeepFirst(s)| ==>
      KeepFirst(s)[i] in s && KeepFirst(s)[j] in s && FirstIndex(s, KeepFirst(s)[i]) < FirstIndex(s, KeepFirst(s)[j])
    decreases |s|
  {
    if s != [] {
      var init := s[..|s| - 1];
      var last := s[|s| - 1];
      var rest := KeepFirst(init);
      KeepFirstOrder(init);
      KeepFirstSpec(init);
      var r := KeepFirst(s);
      assert r == if last in init then rest else rest + [last];
      forall i, j | 0 <= i < j < |r| ensures r[i] in s && r[j] in s && FirstIndex(s, r[i]) < FirstIndex(s, r[j]) {
        assert r[i] == rest[i] && r[i] in init;
        FirstIndexInit(s, r[i]);
        if j < |rest| {
          assert r[j] == rest[j] && r[j] in init;
          FirstIndexInit(s, r[j]);
        } else {
          assert r[j] == last && last !in init;
          FirstIndexLast(s);
        }
      }
    } else {
      assert KeepFirst(s) == [];
    }
  }

  /** The positions `getProbePositions` considers before clamping and
      removing repeats, in the order it pushes them: the position, the one
      after it, the one before it when that is still on the line, and, when
      the pattern matches the line, the offset just after the match and the
      one after that. */
  function ProbeCandidates(doc: string, position: nat, pattern: Option<PrefixMatcher>): seq<int>
    requires position <= |doc|
  {
    var line := LineAt(doc, position);
    [position, position + 1]
    + (if position > line.from then [position - 1] else [])
    + match pattern
      case None => []
      case Some(m) =>
        match m(line.text)
        case None => []
        case Some(n) => [line.from + n, line.from + n + 1]
  }

  /** What `getProbePositions` returns. */
  function ProbePositions(doc: string, position: nat, pattern: Option<PrefixMatcher>): seq<int>
    requires position <= |doc|
  {
    KeepFirst(ClampAll(ProbeCandidates(doc, position, pattern), |doc|))
  }

  /** The probes are offsets of the document, none twice, the first is the
      position itself, and they are exactly the clamped candidates. */
  lemma ProbePositionsSpec(doc: string, position: nat, pattern: Option<PrefixMatcher>)
    requires position <= |doc|
    ensures var probes := ProbePositions(doc, position, pattern);
      && (forall i :: 0 <= i < |probes| ==> 0 <= probes[i] <= |doc|)
      && NoRepeats(probes)
      && |probes| >= 1 && probes[0] == position
      && (forall x :: x in probes <==> x in ClampAll(ProbeCandidates(doc, position, pattern), |doc|))
  {
    var clamped := ClampAll(ProbeCandidates(doc, position, pattern), |doc|);
    KeepFirstSpec(clamped);
    var probes := ProbePositions(doc, position, pattern);
    forall i | 0 <= i < |probes| ensures 0 <= probes[i] <= |doc| {
      assert probes[i] in clamped;
    }
  }

  /** `getProbePositions`. */
  method GetProbePositions(doc: string, position: nat, pattern: Option<PrefixMatcher>) returns (probes: seq<int>)
    requires position <= |doc|
    ensures probes == ProbePositions(doc, position, pattern)
    ensures forall i :: 0 <= i < |probes| ==> 0 <= probes[i] <= |doc|
    ensures NoRepeats(probes) && |probes| >= 1 && probes[0] == position
  {
    var line := LineAt(doc, position);
    var positions: seq<int> := [position, position + 1];
    if position > line.from {
      positions := positions + [position - 1];
    }
    if pattern.Some? {
      var m := pattern.value(line.text);
      if m.Some? {
        var afterPrefix := line.from + m.value;
        positions := positions + [afterPrefix];
        positions := positions + [afterPrefix + 1];
      }
    }
    assert positions == ProbeCandidates(doc, position, pattern);
    probes := FilterFirstOccurrences(ClampAll(positions, |doc|));
    ProbePositionsSpec(doc, position, pattern);
  }

  /** `.filter((pos, index, list) => list.indexOf(pos) === index)`: the
      index of the first occurrence of `pos` is `index` exactly when `pos`
      does not occur before `index`. */
  method FilterFirstOccurrences(list: seq<int>) returns (kept: seq<int>)
    ensures kept == KeepFirst(list)
  {
    kept := [];
    for i := 0 to |list|
      invariant kept == KeepFirst(list[..i])
    {
      assert list[..i + 1][..i] == list[..i];
      if list[i] !in list[..i] {
        kept := kept + [list[i]];
      }
    }
    assert list[..|list|] == list;
  }

  /** The first node of `nodes` with the given name. */
  function FirstNamed(nodes: seq<Node>, name: string): (r: Option<Node>)
    ensures r.None? <==> forall i :: 0 <= i < |nodes| ==> !IsNamed(nodes[i], name)
    ensures r.Some? ==> exists i :: 0 <= i < |nodes| && nodes[i] == r.value && IsNamed(nodes[i], name)
                                 && forall j :: 0 <= j < i ==> !IsNamed(nodes[j], name)
  {
    if nodes == [] then None
    else if IsNamed(nodes[0], name) then Some(nodes[0])
    else
      var r := FirstNamed(nodes[1..], name);
      assert forall i :: 0 < i < |nodes| ==> nodes[i] == nodes[1..][i - 1];
      r
  }

  lemma {:induction false} FirstNamedConcat(a: seq<Node>, b: seq<Node>, name: string)
    ensures FirstNamed(a + b, name) == if FirstNamed(a, name).Some? then FirstNamed(a, name) else FirstNamed(b, name)
    decreases |a|
  {
    if a != [] {
      assert (a + b)[1..] == a[1..] + b;
      FirstNamedConcat(a[1..], b, name);
    } else {
      assert a + b == b;
    }
  }

  /** The two ancestor chains of a probe, bias -1 first. */
  function ChainsAt(tree: Tree, probe: int): seq<Node> {
    tree.resolveInner(probe, -1) + tree.resolveInner(probe, 1)
  }

  /** The nodes `findParagraphNodeAt` visits, in order, when it finds no
      paragraph: for each probe, its two chains. */
  function ProbeChains(tree: Tree, probes: seq<int>): seq<Node>
    decreases |probes|
  {
    if probes == [] then [] else ChainsAt(tree, probes[0]) + ProbeChains(tree, probes[1..])
  }

  lemma {:induction false} ProbeChainsSnoc(tree: Tree, probes: seq<int>, p: int)
    ensures ProbeChains(tree, probes + [p]) == ProbeChains(tree, probes) + ChainsAt(tree, p)
    decreases |probes|
  {
    if probes == [] {
      assert ProbeChains(tree, [p]) == ChainsAt(tree, p) + [];
    } else {
      assert (probes + [p])[1..] == probes[1..] + [p];
      ProbeChainsSnoc(tree, probes[1..], p);
    }
  }

  lemma {:induction false} ProbeChainsMembers(tree: Tree, probes: seq<int>, n: Node)
    ensures n in ProbeChains(tree, probes) <==> exists i :: 0 <= i < |probes| && n in ChainsAt(tree, probes[i])
    decreases |probes|
  {
    if probes != [] {
      ProbeChainsMembers(tree, probes[1..], n);
      if n in ChainsAt(tree, probes[0]) {
        assert 0 < |probes| && n in ChainsAt(tree, probes[0]);
      }
      if exists i :: 0 <= i < |probes| && n in ChainsAt(tree, probes[i]) {
        var i :| 0 <= i < |probes| && n in ChainsAt(tree, probes[i]);
        if i > 0 {
          assert probes[1..][i - 1] == probes[i];
        }
      }
    }
  }

  /** The paragraph `findParagraphNodeAt` returns. */
  function ParagraphAt(doc: string, tree: Tree, position: nat, pattern: Option<PrefixMatcher>): Option<Node>
    requires position <= |doc|
  {
    FirstNamed(ProbeChains(tree, ProbePositions(doc, position, pattern)), "paragraph")
  }

  /** Searching the chains of the probes finds nothing exactly when no
      chain holds a paragraph, and what it finds is a paragraph of some
      probe's chain. */
  lemma {:induction false} ChainsSearchSpec(tree: Tree, probes: seq<int>)
    ensures var r := FirstNamed(ProbeChains(tree, probes), "paragraph");
      && (r.None? <==> forall i, n :: 0 <= i < |probes| && n in ChainsAt(tree, probes[i]) ==> !IsNamed(n, "paragraph"))
      && (r.Some? ==> IsNamed(r.value, "paragraph") && exists i :: 0 <= i < |probes| && r.value in ChainsAt(tree, probes[i]))
  {
    var nodes := ProbeChains(tree, probes);
    var r := FirstNamed(nodes, "paragraph");
    if r.Some? {
      var k :| 0 <= k < |nodes| && nodes[k] == r.value && IsNamed(nodes[k], "paragraph");
      ProbeChainsMembers(tree, probes, nodes[k]);
    } else {
      forall i, n | 0 <= i < |probes| && n in ChainsAt(tree, probes[i]) ensures !IsNamed(n, "paragraph") {
        ProbeChainsMembers(tree, probes, n);
        var k :| 0 <= k < |nodes| && nodes[k] == n;
      }
    }
  }

  /** `findParagraphNodeAt` finds nothing exactly when no chain of any probe
      holds a paragraph, and what it finds is a paragraph of some probe's
      chain. */
  lemma ParagraphAtSpec(doc: string, tree: Tree, position: nat, pattern: Option<PrefixMatcher>)
    requires position <= |doc|
    ensures var probes := ProbePositions(doc, position, pattern);
      && (ParagraphAt(doc, tree, position, pattern).None? <==>
          forall i, n :: 0 <= i < |probes| && n in ChainsAt(tree, probes[i]) ==> !IsNamed(n, "paragraph"))
      && (ParagraphAt(doc, tree, position, pattern).Some? ==>
          var n := ParagraphAt(doc, tree, position, pattern).value;
          IsNamed(n, "paragraph") && exists i :: 0 <= i < |probes| && n in ChainsAt(tree, probes[i]))
  {
    ChainsSearchSpec(tree, ProbePositions(doc, position, pattern));
  }

  /** `findParagraphNodeAt`: for each probe in turn, the bias -1 chain and
      then the bias +1 chain are walked up to the root, and the first
      paragraph met is returned. */
  method FindParagraphNodeAt(doc: string, tree: Tree, position: nat, pattern: Option<PrefixMatcher>) returns (found: Option<Node>)
    requires position <= |doc|
    ensures found == ParagraphAt(doc, tree, position, pattern)
  {
    var probes := GetProbePositions(doc, position, pattern);
    for i := 0 to |probes|
      invariant FirstNamed(ProbeChains(tree, probes[..i]), "paragraph").None?
    {
      var node := WalkToParagraph(tree.resolveInner(probes[i], -1));
      if node.Some? {
        FoundInChain(tree, probes, i, node.value);
        return node;
      }
      node := WalkToParagraph(tree.resolveInner(probes[i], 1));
      if node.Some? {
        FoundInChain(tree, probes, i, node.value);
        return node;
      }
      NothingInChains(tree, probes, i);
    }
    assert probes[..|probes|] == probes;
    return None;
  }

  /** One `while (node)` loop of `findParagraphNodeAt`: the walk from a node
      up through its parents, stopping at the first paragraph. */
  method WalkToParagraph(chain: seq<Node>) returns (found: Option<Node>)
    ensures found == FirstNamed(chain, "paragraph")
  {
    for j := 0 to |chain|
      invariant forall x :: 0 <= x < j ==> !IsNamed(chain[x], "paragraph")
    {
      if IsNamed(chain[j], "paragraph") {
        FirstNamedAt(chain, j, "paragraph");
        return Some(chain[j]);
      }
    }
    return None;
  }

  /** When the chains of the earlier probes hold no paragraph, the first
      paragraph of the chains of probe `i` is the one the whole search
      finds. */
  lemma {:induction false} FoundInChain(tree: Tree, probes: seq<int>, i: nat, n: Node)
    requires i < |probes| && FirstNamed(ProbeChains(tree, probes[..i]), "paragraph").None?
    requires var before := tree.resolveInner(probes[i], -1);
      FirstNamed(before, "paragraph") == Some(n)
      || (FirstNamed(before, "paragraph").None? && FirstNamed(tree.resolveInner(probes[i], 1), "paragraph") == Some(n))
    ensures FirstNamed(ProbeChains(tree, probes), "paragraph") == Some(n)
  {
    FirstNamedConcat(tree.resolveInner(probes[i], -1), tree.resolveInner(probes[i], 1), "paragraph");
    ProbeChainsSplit(tree, probes, i);
    FirstNamedMiddle(ProbeChains(tree, probes[..i]), ChainsAt(tree, probes[i]), ProbeChains(tree, probes[i + 1..]), "paragraph");
  }

  lemma {:induction false} ProbeChainsSplit(tree: Tree, probes: seq<int>, i: nat)
    requires i < |probes|
    ensures ProbeChains(tree, probes) == ProbeChains(tree, probes[..i]) + ChainsAt(tree, probes[i]) + ProbeChains(tree, probes[i + 1..])
  {
    var rest := probes[i + 1..];
    assert probes == probes[..i] + ([probes[i]] + rest);
    ProbeChainsAppend(tree, probes[..i], [probes[i]] + rest);
    assert ([probes[i]] + rest)[1..] == rest;
  }

  lemma {:induction false} FirstNamedMiddle(a: seq<Node>, c: seq<Node>, b: seq<Node>, name: string)
    requires FirstNamed(a, name).None? && FirstNamed(c, name).Some?
    ensures FirstNamed(a + c + b, name) == FirstNamed(c, name)
    decreases |a|
  {
    if a == [] {
      assert a + c + b == c + b;
      FirstNamedConcat(c, b, name);
    } else {
      assert !IsNamed(a[0], name);
      assert (a + c + b)[1..] == a[1..] + c + b;
      FirstNamedMiddle(a[1..], c, b, name);
    }
  }

  /** When neither chain of probe `i` holds a paragraph, the search goes on
      with the next probe. */
  lemma {:induction false} NothingInChains(tree: Tree, probes: seq<int>, i: nat)
    requires i < |probes| && FirstNamed(ProbeChains(tree, probes[..i]), "paragraph").None?
    requires FirstNamed(tree.resolveInner(probes[i], -1), "paragraph").None?
    requires FirstNamed(tree.resolveInner(probes[i], 1), "paragraph").None?
    ensures FirstNamed(ProbeChains(tree, probes[..i + 1]), "paragraph").None?
  {
    assert probes[..i + 1] == probes[..i] + [probes[i]];
    ProbeChainsSnoc(tree, probes[..i], probes[i]);
    FirstNamedConcat(tree.resolveInner(probes[i], -1), tree.resolveInner(probes[i], 1), "paragraph");
    FirstNamedConcat(ProbeChains(tree, probes[..i]), ChainsAt(tree, probes[i]), "paragraph");
  }

  lemma {:induction false} ProbeChainsAppend(tree: Tree, a: seq<int>, b: seq<int>)
    ensures ProbeChains(tree, a + b) == ProbeChains(tree, a) + ProbeChains(tree, b)
    decreases |a|
  {
    if a == [] {
      assert a + b == b;
    } else {
      assert (a + b)[1..] == a[1..] + b;
      ProbeChainsAppend(tree, a[1..], b);
    }
  }

  /** The first named node is the one at the first index with that name. */
  lemma {:induction false} FirstNamedAt(nodes: seq<Node>, i: nat, name: string)
    requires i < |nodes| && IsNamed(nodes[i], name)
    requires forall x :: 0 <= x < i ==> !IsNamed(nodes[x], name)
    ensures FirstNamed(nodes, name) == Some(nodes[i])
  {
    var r := FirstNamed(nodes, name);
    var k :| 0 <= k < |nodes| && nodes[k] == r.value && IsNamed(nodes[k], name)
      && forall j :: 0 <= j < k ==> !IsNamed(nodes[j], name);
    assert k == i;
  }

  /** A span of whole lines, as `{from, to}`. */
  datatype ParagraphRange = ParagraphRange(from: nat, to: nat)

  /** `getParagraphLineRange`: the span of a node widened to whole lines,
      from the start of `lineAt(node.from)` to the end of `lineAt(endPos)`. */
  function GetParagraphLineRange(doc: string, node: Node): (r: ParagraphRange)
    requires 0 <= node.from <= |doc| && node.to <= |doc| + 1
    ensures r.from <= r.to <= |doc|
  {
    var endPos := if node.from >= node.to - 1 then node.from else node.to - 1;
    ParagraphRange(LineStart(doc, node.from), LineEnd(doc, endPos))
  }

  /** The start moves back to the start of the node's line, and the end
      forward to the end of the line that holds the node's last character
      (its start, for an empty node), with no line feed passed on either
      side. */
  lemma ParagraphLineRangeSpec(doc: string, node: Node)
    requires 0 <= node.from <= |doc| && node.to <= |doc| + 1
    ensures var r := GetParagraphLineRange(doc, node);
      var endPos := if node.from >= node.to - 1 then node.from else node.to - 1;
      && r.from <= node.from <= endPos <= r.to
      && (r.from == 0 || doc[r.from - 1] == '\n') && '\n' !in doc[r.from..node.from]
      && (r.to == |doc| || doc[r.to] == '\n') && '\n' !in doc[endPos..r.to]
  {
    var endPos := if node.from >= node.to - 1 then node.from else node.to - 1;
    LineSlices(doc, LineAt(doc, node.from), node.from, LineAt(doc, endPos), endPos);
  }

  lemma {:induction false} LineSlices(doc: string, startLine: Line, from: nat, endLine: Line, endPos: nat)
    requires startLine.from <= from <= startLine.to <= |doc| && startLine.text == doc[startLine.from..startLine.to]
    requires endLine.from <= endPos <= endLine.to <= |doc| && endLine.text == doc[endLine.from..endLine.to]
    requires '\n' !in startLine.text && '\n' !in endLine.text
    ensures '\n' !in doc[startLine.from..from] && '\n' !in doc[endPos..endLine.to]
  {
    SliceOfSlice(doc, startLine.from, startLine.to, startLine.from, from);
    SliceOfSlice(doc, endLine.from, endLine.to, endPos, endLine.to);
  }

  /** A slice of a slice is a slice of the whole. */
  lemma {:induction false} SliceOfSlice(s: string, a: nat, b: nat, c: nat, d: nat)
    requires a <= c <= d <= b <= |s|
    ensures s[c..d] == s[a..b][c - a..d - a]
  {
    var inner, outer := s[c..d], s[a..b][c - a..d - a];
    forall k | 0 <= k < |inner| ensures inner[k] == outer[k] {
      assert outer[k] == s[a..b][c - a + k] == s[c + k];
    }
  }

  predicate NodesFit(nodes: seq<Node>, n: nat) {
    forall i :: 0 <= i < |nodes| ==> NodeFits(nodes[i], n)
  }

  /** The line ranges of the paragraph nodes, each once, in the order the
      walk first meets them. */
  function DistinctParagraphRanges(doc: string, nodes: seq<Node>): seq<ParagraphRange>
    requires NodesFit(nodes, |doc|)
    decreases |nodes|
  {
    if nodes == [] then []
    else
      var rest := DistinctParagraphRanges(doc, nodes[..|nodes| - 1]);
      var node := nodes[|nodes| - 1];
      if !IsNamed(node, "paragraph") then rest
      else
        var r := GetParagraphLineRange(doc, node);
        if r in rest then rest else rest + [r]
  }

  predicate Distinct(rs: seq<ParagraphRange>) {
    forall i, j :: 0 <= i < j < |rs| ==> rs[i] != rs[j]
  }

  /** `node` is a paragraph whose line range is `r`. */
  predicate ParagraphWithRange(doc: string, node: Node, r: ParagraphRange) {
    NodeFits(node, |doc|) && IsNamed(node, "paragraph") && GetParagraphLineRange(doc, node) == r
  }

  /** Some paragraph node of `nodes` has the line range `r`. */
  ghost predicate HasParagraphRange(doc: string, nodes: seq<Node>, r: ParagraphRange) {
    exists i :: 0 <= i < |nodes| && ParagraphWithRange(doc, nodes[i], r)
  }

  lemma {:induction false} HasParagraphRangeSnoc(doc: string, init: seq<Node>, last: Node, r: ParagraphRange)
    ensures HasParagraphRange(doc, init + [last], r) <==>
      HasParagraphRange(doc, init, r) || ParagraphWithRange(doc, last, r)
  {
    var nodes := init + [last];
    if HasParagraphRange(doc, nodes, r) {
      var i :| 0 <= i < |nodes| && ParagraphWithRange(doc, nodes[i], r);
      if i < |init| {
        assert init[i] == nodes[i];
      }
    }
    if HasParagraphRange(doc, init, r) {
      var i :| 0 <= i < |init| && ParagraphWithRange(doc, init[i], r);
      assert nodes[i] == init[i];
    }
    if ParagraphWithRange(doc, last, r) {
      assert nodes[|init|] == last;
    }
  }

  /** The collected ranges are exactly the line ranges of the paragraph
      nodes. */
  lemma {:induction false} DistinctParagraphRangesMembers(doc: string, nodes: seq<Node>, r: ParagraphRange)
    requires NodesFit(nodes, |doc|)
    ensures r in DistinctParagraphRanges(doc, nodes) <==> HasParagraphRange(doc, nodes, r)
    decreases |nodes|
  {
    if nodes != [] {
      var init := nodes[..|nodes| - 1];
      assert nodes == init + [nodes[|nodes| - 1]];
      assert NodesFit(init, |doc|);
      HasParagraphRangeSnoc(doc, init, nodes[|nodes| - 1], r);
      DistinctParagraphRangesMembers(doc, init, r);
    }
  }

  /** No range is collected twice. */
  lemma {:induction false} DistinctParagraphRangesDistinct(doc: string, nodes: seq<Node>)
    requires NodesFit(nodes, |doc|)
    ensures Distinct(DistinctParagraphRanges(doc, nodes))
    decreases |nodes|
  {
    if nodes != [] {
      var init := nodes[..|nodes| - 1];
      assert NodesFit(init, |doc|);
      DistinctParagraphRangesDistinct(doc, init);
    }
  }

  /** The order of the comparator `(a, b) => a.from - b.from`. */
  predicate FromLe(a: ParagraphRange, b: ParagraphRange) {
    a.from <= b.from
  }

  lemma FromLeTotal()
    ensures TotalPreorder(FromLe)
  {
  }

  /** `ranges.sort((a, b) => a.from - b.from)`. */
  function SortByFrom(rs: seq<ParagraphRange>): seq<ParagraphRange> {
    SortBy(rs, FromLe)
  }

  /** The ranges starting at `k`, in order. */
  function StartingAt(rs: seq<ParagraphRange>, k: nat): seq<ParagraphRange>
    decreases |rs|
  {
    if rs == [] then [] else (if rs[0].from == k then [rs[0]] else []) + StartingAt(rs[1..], k)
  }

  lemma {:induction false} InsertStable(x: ParagraphRange, rs: seq<ParagraphRange>, k: nat)
    requires SortedBy(rs, FromLe)
    ensures StartingAt(InsertBy(x, rs, FromLe), k) == (if x.from == k then [x] else []) + StartingAt(rs, k)
    decreases |rs|
  {
    if rs == [] {
      assert [x][1..] == [];
    } else if x.from <= rs[0].from {
      assert ([x] + rs)[1..] == rs;
      if x.from != k && rs[0].from == k {
        assert x.from < k;
      }
    } else {
      var head, tail := rs[0], rs[1..];
      SortedTail(rs, FromLe);
      InsertStable(x, tail, k);
      var ins := InsertBy(x, tail, FromLe);
      assert InsertBy(x, rs, FromLe) == [head] + ins;
      assert ([head] + ins)[1..] == ins;
      assert StartingAt([head] + ins, k) == (if head.from == k then [head] else []) + StartingAt(ins, k);
      assert StartingAt(rs, k) == (if head.from == k then [head] else []) + StartingAt(tail, k);
      assert !(x.from == k && head.from == k);
    }
  }

  /** The sort is stable: the ranges that start at the same offset keep
      their order. */
  lemma {:induction false} SortByFromStable(rs: seq<ParagraphRange>, k: nat)
    ensures StartingAt(SortByFrom(rs), k) == StartingAt(rs, k)
    decreases |rs|
  {
    if rs != [] {
      SortByFromStable(rs[1..], k);
      FromLeTotal();
      SortBySpec(rs[1..], FromLe);
      InsertStable(rs[0], SortByFrom(rs[1..]), k);
    }
  }

  lemma {:induction false} DistinctOfMultiset(a: seq<ParagraphRange>, b: seq<ParagraphRange>)
    requires multiset(a) == multiset(b) && Distinct(a)
    ensures Distinct(b)
  {
    forall i, j | 0 <= i < j < |b| ensures b[i] != b[j] {
      if b[i] == b[j] {
        assert b == b[..i] + [b[i]] + b[i + 1..j] + [b[j]] + b[j + 1..];
        assert multiset(b)[b[i]] >= 2;
        DistinctCount(a, b[i]);
      }
    }
  }

  lemma {:induction false} DistinctCount(a: seq<ParagraphRange>, x: ParagraphRange)
    requires Distinct(a)
    ensures multiset(a)[x] <= 1
    decreases |a|
  {
    if a != [] {
      var tail := a[1..];
      assert Distinct(tail) by {
        forall i, j | 0 <= i < j < |tail| ensures tail[i] != tail[j] {
          assert tail[i] == a[i + 1] && tail[j] == a[j + 1];
        }
      }
      DistinctCount(tail, x);
      assert a == [a[0]] + tail;
      if a[0] == x {
        assert x !in tail by {
          forall j | 0 <= j < |tail| ensures tail[j] != x {
            assert tail[j] == a[j + 1];
          }
        }
      }
    }
  }

  /** What `collectParagraphRanges` returns. */
  function ParagraphRanges(doc: string, tree: Tree, from: int, to: int): seq<ParagraphRange>
    requires TreeFits(tree, |doc|)
  {
    var nodes := tree.iterate(from, to);
    assert NodesFit(nodes, |doc|);
    SortByFrom(DistinctParagraphRanges(doc, nodes))
  }

  /** The result holds the line range of every paragraph node the walk
      enters and nothing else, each once, sorted by start. */
  lemma ParagraphRangesSpec(doc: string, tree: Tree, from: int, to: int)
    requires TreeFits(tree, |doc|)
    ensures var rs := ParagraphRanges(doc, tree, from, to);
      var nodes := tree.iterate(from, to);
      && SortedBy(rs, FromLe) && Distinct(rs)
      && forall r :: r in rs <==> exists i :: 0 <= i < |nodes| && IsNamed(nodes[i], "paragraph") && GetParagraphLineRange(doc, nodes[i]) == r
  {
    var nodes := tree.iterate(from, to);
    assert NodesFit(nodes, |doc|);
    var ds := DistinctParagraphRanges(doc, nodes);
    DistinctParagraphRangesDistinct(doc, nodes);
    FromLeTotal();
    SortBySpec(ds, FromLe);
    DistinctOfMultiset(ds, SortByFrom(ds));
    forall r ensures r in SortByFrom(ds) <==> HasParagraphRange(doc, nodes, r) {
      assert r in multiset(SortByFrom(ds)) <==> r in multiset(ds);
      DistinctParagraphRangesMembers(doc, nodes, r);
    }
  }

  /** `collectParagraphRanges`: the walk over the nodes `tree.iterate`
      enters keeps the paragraphs, widens each to whole lines, skips a range
      already seen, and the result is sorted by start. The key
      `${from}:${to}` of the source names each range uniquely, so the set of
      seen keys is a set of ranges here. */
  method CollectParagraphRanges(doc: string, tree: Tree, from: int, to: int) returns (ranges: seq<ParagraphRange>)
    requires TreeFits(tree, |doc|)
    ensures ranges == ParagraphRanges(doc, tree, from, to)
  {
    var nodes := tree.iterate(from, to);
    assert NodesFit(nodes, |doc|);
    var collected: seq<ParagraphRange> := [];
    var seen: set<ParagraphRange> := {};
    for i := 0 to |nodes|
      invariant collected == DistinctParagraphRanges(doc, nodes[..i])
      invariant forall r :: r in seen <==> r in collected
    {
      assert nodes[..i + 1][..i] == nodes[..i];
      var node := nodes[i];
      if !IsNamed(node, "paragraph") {
        continue;
      }
      var paragraphRange := GetParagraphLineRange(doc, node);
      if paragraphRange in seen {
        continue;
      }
      seen := seen + {paragraphRange};
      collected := collected + [paragraphRange];
    }
    assert nodes[..|nodes|] == nodes;
    ranges := SortByFrom(collected);
  }
}
