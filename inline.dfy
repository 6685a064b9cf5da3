/** The inline delimiter splitter: every plain-text span is split on a
    delimiter into alternating plain and target-type spans. The string
    splitting it relies on is Python's `str.split` with a separator,
    modelled here as leftmost, non-overlapping matching. */
module Inline {
  import opened Wrappers

  /** The span kinds the splitter distinguishes. */
  datatype TextType = Text | Bold | Italic | Code

  /** A `TextNode`: a run of text and its kind. */
  datatype TextNode = TextNode(text: string, textType: TextType)

  /** The exception raised for an unbalanced delimiter. */
  datatype InlineError = InvalidMarkdown {
    function Message(): string { "Invalid markdown syntax" }
  }

  // ---------------------------------------------------------------------
  // String splitting

  /** `d` occurs in `s` starting at index `i`. */
  predicate OccursAt(s: string, d: string, i: nat) {
    i + |d| <= |s| && s[i..i + |d|] == d
  }

  /** `d` occurs somewhere in `s`. */
  predicate Contains(s: string, d: string) {
    exists i: nat | i <= |s| :: OccursAt(s, d, i)
  }

  lemma OccursAtShift(s: string, d: string, j: nat)
    requires |s| > 0
    ensures OccursAt(s, d, j + 1) <==> OccursAt(s[1..], d, j)
  {
    if j + 1 + |d| <= |s| {
      assert s[j + 1..j + 1 + |d|] == s[1..][j..j + |d|];
    }
  }

  /** `s.find(d)` for a non-empty `d`: the index of an occurrence of `d`,
      scanning from the left, if there is one. */
  function FindFirst(s: string, d: string): (r: Option<nat>)
    requires |d| > 0
    ensures r.Some? ==> OccursAt(s, d, r.value)
    decreases |s|
  {
    if |s| < |d| then None
    else if s[..|d|] == d then Some(0)
    else
      match FindFirst(s[1..], d)
      case None => None
      case Some(k) =>
        OccursAtShift(s, d, k);
        Some(k + 1)
  }

  /** The occurrence found is the leftmost one, and none is found exactly
      when `d` does not occur. */
  lemma {:induction false} FindFirstLeftmost(s: string, d: string)
    requires |d| > 0
    ensures var r := FindFirst(s, d);
      && (r.Some? ==> forall j: nat :: j < r.value ==> !OccursAt(s, d, j))
      && (r.None? <==> !Contains(s, d))
    decreases |s|
  {
    if |s| >= |d| && s[..|d|] != d {
      FindFirstLeftmost(s[1..], d);
      match FindFirst(s[1..], d)
      case None =>
        forall j: nat | j <= |s| ensures !OccursAt(s, d, j) {
          if j > 0 { OccursAtShift(s, d, j - 1); }
        }
      case Some(k) =>
        forall j: nat | j < k + 1 ensures !OccursAt(s, d, j) {
          if j > 0 { OccursAtShift(s, d, j - 1); }
        }
    } else if |s| >= |d| {
      assert OccursAt(s, d, 0);
    } else {
      forall j: nat | j <= |s| ensures !OccursAt(s, d, j) {
      }
    }
  }

  /** `d.join(pieces)`: the pieces with `d` between neighbours. */
  function Join(pieces: seq<string>, d: string): string
    decreases |pieces|
  {
    if |pieces| == 0 then ""
    else if |pieces| == 1 then pieces[0]
    else pieces[0] + d + Join(pieces[1..], d)
  }

  /** No occurrence of `d` starts inside `p`, even one that would run on
      into a delimiter placed right after it. */
  predicate NoEarlierMatch(p: string, d: string)
    requires |d| > 0
  {
    !Contains(p + d[..|d| - 1], d)
  }

  /** `s.split(d)` for a non-empty separator: cut at the leftmost
      occurrence of `d`, then split what follows it. */
  function Split(s: string, d: string): (r: seq<string>)
    requires |d| > 0
    ensures |r| >= 1
    decreases |s|
  {
    match FindFirst(s, d)
    case None => [s]
    case Some(i) => [s[..i]] + Split(s[i + |d|..], d)
  }

  /** Joining the pieces with `d` gives back `s`. */
  lemma {:induction false} SplitJoin(s: string, d: string)
    requires |d| > 0
    ensures Join(Split(s, d), d) == s
    decreases |s|
  {
    match FindFirst(s, d)
    case None =>
    case Some(i) =>
      var rest := s[i + |d|..];
      var tail := Split(rest, d);
      SplitJoin(rest, d);
      assert Split(s, d) == [s[..i]] + tail;
      JoinCons(s[..i], tail, d);
      assert s == s[..i] + d + rest;
  }

  lemma JoinCons(p: string, ps: seq<string>, d: string)
    requires |ps| >= 1
    ensures Join([p] + ps, d) == p + d + Join(ps, d)
  {
    assert ([p] + ps)[1..] == ps;
  }

  /** No piece contains `d`, and every piece but the last ends at the
      leftmost remaining occurrence of `d`. */
  lemma {:induction false} SplitPieces(s: string, d: string)
    requires |d| > 0
    ensures forall k :: 0 <= k < |Split(s, d)| ==> !Contains(Split(s, d)[k], d)
    ensures forall k :: 0 <= k < |Split(s, d)| - 1 ==> NoEarlierMatch(Split(s, d)[k], d)
    decreases |s|
  {
    FindFirstLeftmost(s, d);
    match FindFirst(s, d)
    case None =>
    case Some(i) =>
      var rest := s[i + |d|..];
      SplitPieces(rest, d);
      LeftmostPiece(s, d, i);
      var r, tail := Split(s, d), Split(rest, d);
      assert r == [s[..i]] + tail;
      forall k | 0 < k < |r| ensures r[k] == tail[k - 1] {
      }
  }

  /** The three properties of `Split` together. */
  lemma SplitProperties(s: string, d: string)
    requires |d| > 0
    ensures var r := Split(s, d);
      && Join(r, d) == s
      && (forall k :: 0 <= k < |r| ==> !Contains(r[k], d))
      && (forall k :: 0 <= k < |r| - 1 ==> NoEarlierMatch(r[k], d))
  {
    SplitJoin(s, d);
    SplitPieces(s, d);
  }

  /** The piece before the leftmost occurrence of `d` neither contains `d`
      nor starts an occurrence that runs on into the delimiter. */
  lemma LeftmostPiece(s: string, d: string, i: nat)
    requires |d| > 0 && OccursAt(s, d, i)
    requires forall j: nat :: j < i ==> !OccursAt(s, d, j)
    ensures !Contains(s[..i], d) && NoEarlierMatch(s[..i], d)
  {
    var p := s[..i] + d[..|d| - 1];
    assert p == s[..i + |d| - 1];
    forall j: nat | OccursAt(p, d, j) ensures OccursAt(s, d, j) {
      assert p[j..j + |d|] == s[j..j + |d|];
    }
    forall j: nat | j + |d| <= i ensures !OccursAt(s[..i], d, j) {
      assert !OccursAt(s, d, j);
      assert s[..i][j..j + |d|] == s[j..j + |d|];
    }
  }

  /** Number of non-overlapping occurrences of `d` in `s` counted from the
      left (`s.count(d)`). */
  function Count(s: string, d: string): nat
    requires |d| > 0
    decreases |s|
  {
    match FindFirst(s, d)
    case None => 0
    case Some(i) => 1 + Count(s[i + |d|..], d)
  }

  /** A text with `k` delimiter occurrences splits into `k + 1` pieces. */
  lemma {:induction false} SplitCount(s: string, d: string)
    requires |d| > 0
    ensures |Split(s, d)| == Count(s, d) + 1
    decreases |s|
  {
    match FindFirst(s, d)
    case None =>
    case Some(i) => SplitCount(s[i + |d|..], d);
  }

  /** `Split` is the only way to cut `s` into pieces that join back to `s`
      with `d`, where the last piece contains no `d` and no earlier piece
      starts a match before its end: leftmost, non-overlapping splitting is
      fully determined. */
  lemma {:induction false} SplitUnique(s: string, d: string, ps: seq<string>)
    requires |d| > 0 && |ps| >= 1
    requires Join(ps, d) == s
    requires !Contains(ps[|ps| - 1], d)
    requires forall k :: 0 <= k < |ps| - 1 ==> NoEarlierMatch(ps[k], d)
    ensures ps == Split(s, d)
    decreases |ps|
  {
    if |ps| == 1 {
      FindFirstLeftmost(s, d);
      assert FindFirst(s, d).None?;
    } else {
      var p, rest := ps[0], Join(ps[1..], d);
      assert s == p + d + rest;
      FirstPieceFound(p, d, rest);
      assert s[..|p|] == p && s[|p| + |d|..] == rest;
      SplitUnique(rest, d, ps[1..]);
    }
  }

  /** When no match starts inside `p`, the leftmost match in `p + d + rest`
      is the `d` right after `p`. */
  lemma FirstPieceFound(p: string, d: string, rest: string)
    requires |d| > 0 && NoEarlierMatch(p, d)
    ensures FindFirst(p + d + rest, d) == Some(|p|)
  {
    var s, i := p + d + rest, |p|;
    assert s[i..i + |d|] == d;
    var q := p + d[..|d| - 1];
    assert q == s[..i + |d| - 1];
    forall j: nat | j < i ensures !OccursAt(s, d, j) {
      assert !OccursAt(q, d, j);
      assert q[j..j + |d|] == s[j..j + |d|];
    }
    FindFirstLeftmost(s, d);
    assert OccursAt(s, d, i) && i <= |s|;
  }

  // ---------------------------------------------------------------------
  // Splitting spans

  /** The spans emitted for the pieces of one TEXT span: pieces at odd
      positions get the target type, pieces at even positions stay TEXT. */
  function Tagged(pieces: seq<string>, textType: TextType): seq<TextNode> {
    seq(|pieces|, i requires 0 <= i < |pieces| => TextNode(pieces[i], if i % 2 != 0 then textType else Text))
  }

  /** A TEXT span whose text splits into an even number of pieces: an
      opening delimiter without its closing one. */
  predicate Unbalanced(node: TextNode, d: string)
    requires |d| > 0
  {
    node.textType == Text && |Split(node.text, d)| % 2 == 0
  }

  /** What one input span contributes to the output. */
  function SplitNode(node: TextNode, d: string, textType: TextType): Result<seq<TextNode>, InlineError>
    requires |d| > 0
  {
    if node.textType != Text then Ok([node])
    else if Unbalanced(node, d) then Err(InvalidMarkdown)
    else Ok(Tagged(Split(node.text, d), textType))
  }

  /** `split_nodes_delimiter` as a function: the contributions of the spans
      in input order, or the error if any span is unbalanced. */
  function SplitNodes(nodes: seq<TextNode>, d: string, textType: TextType): Result<seq<TextNode>, InlineError>
    requires |d| > 0
    decreases |nodes|
  {
    if nodes == [] then Ok([])
    else Then(SplitNodes(nodes[..|nodes| - 1], d, textType), SplitNode(nodes[|nodes| - 1], d, textType))
  }

  /** Output of one part followed by output of the next; the first error
      wins. */
  function Then(x: Result<seq<TextNode>, InlineError>, y: Result<seq<TextNode>, InlineError>): Result<seq<TextNode>, InlineError> {
    if x.Err? then x else if y.Err? then y else Ok(x.value + y.value)
  }

  /** `split_nodes_delimiter(old_nodes, delimiter, text_type)`: nested loops
      appending to `new_nodes`; an unbalanced TEXT span raises and nothing
      is returned. */
  method SplitNodesDelimiter(oldNodes: seq<TextNode>, delimiter: string, textType: TextType)
    returns (r: Result<seq<TextNode>, InlineError>)
    requires |delimiter| > 0
    ensures r == SplitNodes(oldNodes, delimiter, textType)
  {
    var newNodes: seq<TextNode> := [];
    for n := 0 to |oldNodes|
      invariant SplitNodes(oldNodes[..n], delimiter, textType) == Ok(newNodes)
    {
      var node := oldNodes[n];
      SplitNodesStep(oldNodes, delimiter, textType, n);
      if node.textType == Text {
        var x := Split(node.text, delimiter);
        if |x| % 2 == 0 {
          SplitNodesPrefixErr(oldNodes, delimiter, textType, n + 1);
          return Err(InvalidMarkdown);
        }
        newNodes := AppendPieces(newNodes, x, textType);
      } else {
        newNodes := newNodes + [node];
      }
    }
    assert oldNodes[..|oldNodes|] == oldNodes;
    return Ok(newNodes);
  }

  /** The inner loop of `split_nodes_delimiter`: the pieces of one TEXT
      span appended in order, odd positions with the target type. */
  method AppendPieces(newNodes: seq<TextNode>, x: seq<string>, textType: TextType) returns (out: seq<TextNode>)
    ensures out == newNodes + Tagged(x, textType)
  {
    out := newNodes;
    for i := 0 to |x|
      invariant out == newNodes + Tagged(x, textType)[..i]
    {
      assert Tagged(x, textType)[..i + 1] == Tagged(x, textType)[..i] + [Tagged(x, textType)[i]];
      if i % 2 != 0 {
        out := out + [TextNode(x[i], textType)];
      } else {
        out := out + [TextNode(x[i], Text)];
      }
    }
    assert Tagged(x, textType)[..|x|] == Tagged(x, textType);
  }

  /** One more input span: its contribution follows what the spans before
      it produced. */
  lemma SplitNodesStep(nodes: seq<TextNode>, d: string, textType: TextType, n: nat)
    requires |d| > 0 && n < |nodes|
    ensures SplitNodes(nodes[..n + 1], d, textType) == Then(SplitNodes(nodes[..n], d, textType), SplitNode(nodes[n], d, textType))
  {
    assert nodes[..n + 1][..n] == nodes[..n];
  }

  /** Once a prefix of the input fails, the whole call fails the same way:
      no partial result. */
  lemma {:induction false} SplitNodesPrefixErr(nodes: seq<TextNode>, d: string, textType: TextType, k: nat)
    requires |d| > 0 && k <= |nodes| && SplitNodes(nodes[..k], d, textType).Err?
    ensures SplitNodes(nodes, d, textType) == SplitNodes(nodes[..k], d, textType)
    decreases |nodes| - k
  {
    if k < |nodes| {
      assert nodes[..k + 1][..k] == nodes[..k];
      SplitNodesPrefixErr(nodes, d, textType, k + 1);
    } else {
      assert nodes[..k] == nodes;
    }
  }

  // ---------------------------------------------------------------------
  // Properties of the splitter

  /** The texts of a list of spans. */
  function Texts(ns: seq<TextNode>): seq<string> {
    seq(|ns|, i requires 0 <= i < |ns| => ns[i].text)
  }

  /** The spans of one given type, in order. */
  function OfType(ns: seq<TextNode>, t: TextType): seq<TextNode>
    decreases |ns|
  {
    if ns == [] then []
    else OfType(ns[..|ns| - 1], t) + (if ns[|ns| - 1].textType == t then [ns[|ns| - 1]] else [])
  }

  lemma {:induction false} OfTypeAppend(a: seq<TextNode>, b: seq<TextNode>, t: TextType)
    ensures OfType(a + b, t) == OfType(a, t) + OfType(b, t)
    decreases |b|
  {
    if b == [] {
      assert a + b == a;
    } else {
      var n := |b| - 1;
      assert (a + b)[..|a + b| - 1] == a + b[..n];
      OfTypeAppend(a, b[..n], t);
    }
  }

  /** A span that is not TEXT is passed through as it is. */
  lemma SplitNodeOther(node: TextNode, d: string, textType: TextType)
    requires |d| > 0 && node.textType != Text
    ensures SplitNode(node, d, textType) == Ok([node])
  {
  }

  /** A balanced TEXT span with `k` delimiter occurrences becomes exactly
      `k + 1` spans, one per piece with no empty piece dropped; the pieces at
      odd positions get the target type and the others stay TEXT; and
      joining their texts with the delimiter gives back the original text. */
  lemma SplitNodeText(node: TextNode, d: string, textType: TextType)
    requires |d| > 0 && node.textType == Text && !Unbalanced(node, d)
    ensures SplitNode(node, d, textType).Ok?
    ensures var out := SplitNode(node, d, textType).value;
      && |out| == Count(node.text, d) + 1
      && |out| % 2 == 1
      && Texts(out) == Split(node.text, d)
      && Join(Texts(out), d) == node.text
      && (forall i :: 0 <= i < |out| ==> out[i].textType == if i % 2 != 0 then textType else Text)
  {
    SplitCount(node.text, d);
    SplitProperties(node.text, d);
    var out := SplitNode(node, d, textType).value;
    assert Texts(out) == Split(node.text, d);
  }

  /** Splitting distributes over concatenation of the input: the output
      for `a + b` is the output for `a` followed by that for `b`, and the
      first error wins. */
  lemma {:induction false} SplitNodesAppend(a: seq<TextNode>, b: seq<TextNode>, d: string, textType: TextType)
    requires |d| > 0
    ensures SplitNodes(a + b, d, textType) == Then(SplitNodes(a, d, textType), SplitNodes(b, d, textType))
    decreases |b|
  {
    if b == [] {
      assert a + b == a;
      ThenEmpty(SplitNodes(a, d, textType));
    } else {
      var n := |b| - 1;
      assert (a + b)[..|a + b| - 1] == a + b[..n];
      assert (a + b)[|a + b| - 1] == b[n];
      SplitNodesAppend(a, b[..n], d, textType);
      ThenAssoc(SplitNodes(a, d, textType), SplitNodes(b[..n], d, textType), SplitNode(b[n], d, textType));
    }
  }

  lemma ThenEmpty(x: Result<seq<TextNode>, InlineError>)
    ensures Then(x, Ok([])) == x
  {
    if x.Ok? {
      assert x.value + [] == x.value;
    }
  }

  lemma ThenAssoc(x: Result<seq<TextNode>, InlineError>, y: Result<seq<TextNode>, InlineError>, z: Result<seq<TextNode>, InlineError>)
    ensures Then(Then(x, y), z) == Then(x, Then(y, z))
  {
    if x.Ok? && y.Ok? && z.Ok? {
      assert x.value + y.value + z.value == x.value + (y.value + z.value);
    }
  }

  /** The call fails exactly when some TEXT span is unbalanced. */
  lemma {:induction false} SplitNodesFails(nodes: seq<TextNode>, d: string, textType: TextType)
    requires |d| > 0
    ensures SplitNodes(nodes, d, textType).Err? <==> exists i :: 0 <= i < |nodes| && Unbalanced(nodes[i], d)
    decreases |nodes|
  {
    if nodes != [] {
      var n := |nodes| - 1;
      SplitNodesFails(nodes[..n], d, textType);
      assert forall i :: 0 <= i < n ==> nodes[..n][i] == nodes[i];
    }
  }

  /** Every input span contributes at least one output span. */
  lemma {:induction false} SplitNodesLength(nodes: seq<TextNode>, d: string, textType: TextType)
    requires |d| > 0 && SplitNodes(nodes, d, textType).Ok?
    ensures |SplitNodes(nodes, d, textType).value| >= |nodes|
    decreases |nodes|
  {
    if nodes != [] {
      SplitNodesLength(nodes[..|nodes| - 1], d, textType);
    }
  }

  /** When no span is TEXT, the output is the input. */
  lemma {:induction false} SplitNodesNoText(nodes: seq<TextNode>, d: string, textType: TextType)
    requires |d| > 0 && forall i :: 0 <= i < |nodes| ==> nodes[i].textType != Text
    ensures SplitNodes(nodes, d, textType) == Ok(nodes)
    decreases |nodes|
  {
    if nodes != [] {
      var n := |nodes| - 1;
      SplitNodesNoText(nodes[..n], d, textType);
      assert nodes[..n] + [nodes[n]] == nodes;
    }
  }

  /** Spans of a type other than TEXT and the target type come out exactly
      as they went in, in the same order; a second pass with another
      delimiter therefore leaves the spans typed by a first pass alone. */
  lemma {:induction false} SplitNodesKeepsOthers(nodes: seq<TextNode>, d: string, textType: TextType, t: TextType)
    requires |d| > 0 && t != Text && t != textType
    requires SplitNodes(nodes, d, textType).Ok?
    ensures OfType(SplitNodes(nodes, d, textType).value, t) == OfType(nodes, t)
    decreases |nodes|
  {
    if nodes != [] {
      var n := |nodes| - 1;
      var prefix := SplitNodes(nodes[..n], d, textType).value;
      var out := SplitNode(nodes[n], d, textType).value;
      assert SplitNodes(nodes, d, textType).value == prefix + out;
      SplitNodesKeepsOthers(nodes[..n], d, textType, t);
      OfTypeAppend(prefix, out, t);
      if nodes[n].textType == Text {
        OfTypeNone(out, t);
      } else {
        assert [nodes[n]][..0] == [];
        assert OfType(out, t) == (if nodes[n].textType == t then [nodes[n]] else []);
      }
    }
  }

  lemma {:induction false} OfTypeNone(ns: seq<TextNode>, t: TextType)
    requires forall i :: 0 <= i < |ns| ==> ns[i].textType != t
    ensures OfType(ns, t) == []
    decreases |ns|
  {
    if ns != [] {
      OfTypeNone(ns[..|ns| - 1], t);
    }
  }
}
