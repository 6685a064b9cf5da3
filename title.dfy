/** Title extraction: the text of the first line of a Markdown document
    that starts with "# ", with surrounding whitespace removed. Python's
    `str.splitlines` and `str.strip` are modelled with their character sets
    written out. */
module Title {
  import opened Wrappers

  /** The exception raised when no line qualifies. */
  datatype TitleError = MissingH1 {
    function Message(): string { "Title must have h1 tag" }
  }

  // ---------------------------------------------------------------------
  // Lines

  /** The characters `str.splitlines` ends a line at: LF, CR, VT, FF, the
      file, group and record separators, NEL, and the Unicode line and
      paragraph separators. A CR LF pair ends one line. */
  predicate IsLineBreak(c: char) {
    var n := c as int;
    n == 0x0A || n == 0x0D || n == 0x0B || n == 0x0C || n == 0x1C || n == 0x1D || n == 0x1E ||
    n == 0x85 || n == 0x2028 || n == 0x2029
  }

  predicate NoBreak(s: string) {
    forall k :: 0 <= k < |s| ==> !IsLineBreak(s[k])
  }

  /** The index of the first line break in `s`, or `|s|` if there is none. */
  function LineEnd(s: string): (i: nat)
    ensures i <= |s|
    ensures NoBreak(s[..i])
    ensures i < |s| ==> IsLineBreak(s[i])
    decreases |s|
  {
    if s == [] || IsLineBreak(s[0]) then 0 else 1 + LineEnd(s[1..])
  }

  /** How many characters the line break at `i` takes: two for CR LF. */
  function BreakLength(s: string, i: nat): nat
    requires i < |s|
  {
    if s[i] == '\r' && i + 1 < |s| && s[i + 1] == '\n' then 2 else 1
  }

  /** `s.splitlines()`: the lines of `s` without their line breaks; a final
      line break does not start an empty last line, and the empty text has
      no lines. */
  function SplitLines(s: string): (lines: seq<string>)
    ensures forall k :: 0 <= k < |lines| ==> NoBreak(lines[k])
    ensures lines == [] <==> s == []
    decreases |s|
  {
    if s == [] then []
    else
      var i := LineEnd(s);
      if i == |s| then [s]
      else [s[..i]] + SplitLines(s[i + BreakLength(s, i)..])
  }

  /** `s` with every line-break character removed. */
  function RemoveBreaks(s: string): string
    decreases |s|
  {
    if s == [] then []
    else (if IsLineBreak(s[0]) then [] else [s[0]]) + RemoveBreaks(s[1..])
  }

  function Concat(lines: seq<string>): string
    decreases |lines|
  {
    if lines == [] then "" else lines[0] + Concat(lines[1..])
  }

  lemma {:induction false} RemoveBreaksAppend(a: string, b: string)
    ensures RemoveBreaks(a + b) == RemoveBreaks(a) + RemoveBreaks(b)
    decreases |a|
  {
    if a == [] {
      assert a + b == b;
    } else {
      assert (a + b)[1..] == a[1..] + b;
      RemoveBreaksAppend(a[1..], b);
    }
  }

  lemma {:induction false} RemoveBreaksNone(s: string)
    requires NoBreak(s)
    ensures RemoveBreaks(s) == s
    decreases |s|
  {
    if s != [] {
      RemoveBreaksNone(s[1..]);
    }
  }

  lemma {:induction false} RemoveBreaksAll(s: string)
    requires forall k :: 0 <= k < |s| ==> IsLineBreak(s[k])
    ensures RemoveBreaks(s) == []
    decreases |s|
  {
    if s != [] {
      RemoveBreaksAll(s[1..]);
    }
  }

  /** Removing the breaks from a text that ends its first line at `i`
      keeps that line and drops the break that ends it. */
  lemma {:induction false} RemoveBreaksFirstLine(s: string, i: nat, n: nat)
    requires i + n <= |s| && NoBreak(s[..i])
    requires forall k :: i <= k < i + n ==> IsLineBreak(s[k])
    ensures RemoveBreaks(s) == s[..i] + RemoveBreaks(s[i + n..])
  {
    var line, brk, rest := s[..i], s[i..i + n], s[i + n..];
    assert s == (line + brk) + rest;
    RemoveBreaksAppend(line + brk, rest);
    RemoveBreaksAppend(line, brk);
    RemoveBreaksNone(line);
    RemoveBreaksAll(brk);
  }

  /** The lines, put back together, are the text without its line breaks:
      splitting loses only the breaks, never a character of a line. */
  lemma {:induction false} SplitLinesKeepsText(s: string)
    ensures Concat(SplitLines(s)) == RemoveBreaks(s)
    decreases |s|
  {
    if s != [] {
      var i := LineEnd(s);
      if i == |s| {
        assert s[..i] == s;
        RemoveBreaksNone(s);
        assert SplitLines(s) == [s];
        assert Concat([s]) == s + Concat([]);
      } else {
        var n := BreakLength(s, i);
        var rest := s[i + n..];
        CutAtLineEnd(s, i, n);
        BreakIsTerminator(s, i);
        SplitLinesKeepsText(rest);
        RemoveBreaksFirstLine(s, i, n);
        ConcatCons(s[..i], SplitLines(rest));
      }
    }
  }

  lemma ConcatCons(p: string, lines: seq<string>)
    ensures Concat([p] + lines) == p + Concat(lines)
  {
    assert ([p] + lines)[1..] == lines;
  }

  /** One line terminator as `splitlines` recognises it: CR LF, or a single
      line-break character. */
  predicate Terminator(t: string) {
    t == "\r\n" || (|t| == 1 && IsLineBreak(t[0]))
  }

  /** Each line followed by its terminator, in order. */
  function Assemble(lines: seq<string>, terms: seq<string>): string
    requires |lines| == |terms|
    decreases |lines|
  {
    if lines == [] then "" else lines[0] + terms[0] + Assemble(lines[1..], terms[1..])
  }

  predicate StartsWithLF(s: string) {
    s != [] && s[0] == '\n'
  }

  /** `lines`, ended by `terms`, is a cutting of `s` into lines the way
      `splitlines` cuts: put back together they are `s`; no line holds a
      break; every line but the last ends with a terminator; the last one
      ends with a terminator or, when it is not empty, with the end of the
      text; and a lone CR is never followed by an LF, since CR LF is one
      terminator (as lines hold no breaks, that LF could only be the
      terminator of an empty next line). */
  predicate LinesOf(s: string, lines: seq<string>, terms: seq<string>) {
    && |lines| == |terms|
    && Assemble(lines, terms) == s
    && (forall k :: 0 <= k < |lines| ==> NoBreak(lines[k]))
    && (forall k :: 0 <= k < |lines| - 1 ==> Terminator(terms[k]))
    && (lines != [] ==>
          Terminator(terms[|lines| - 1]) || (terms[|lines| - 1] == "" && lines[|lines| - 1] != ""))
    && (forall k :: 0 <= k < |lines| - 1 ==> !SplitCrLf(terms[k], lines[k + 1], terms[k + 1]))
  }

  /** A CR that ends one line, an empty next line and an LF that ends it:
      a CR LF pair wrongly cut in two. */
  predicate SplitCrLf(t: string, next: string, nextT: string) {
    t == "\r" && next == "" && nextT == "\n"
  }

  /** The terminators `splitlines` cuts `s` at, one per line; the last is
      empty when the text does not end with a line break. */
  function LineTerms(s: string): seq<string>
    decreases |s|
  {
    if s == [] then []
    else
      var i := LineEnd(s);
      if i == |s| then [""]
      else [s[i..i + BreakLength(s, i)]] + LineTerms(s[i + BreakLength(s, i)..])
  }

  /** A line and its terminator in front of a cutting of `rest` make a
      cutting of the whole text. */
  lemma LinesOfCons(p: string, t: string, rest: string, ls: seq<string>, ts: seq<string>)
    requires LinesOf(rest, ls, ts) && NoBreak(p) && Terminator(t)
    requires t == "\r" ==> !StartsWithLF(rest)
    ensures LinesOf(p + t + rest, [p] + ls, [t] + ts)
  {
    var lines, terms := [p] + ls, [t] + ts;
    assert lines[1..] == ls && terms[1..] == ts;
    if ls != [] {
      assert rest == ls[0] + ts[0] + Assemble(ls[1..], ts[1..]);
    }
    forall k | 0 < k < |lines| ensures lines[k] == ls[k - 1] && terms[k] == ts[k - 1] {
    }
  }

  /** A non-empty text without breaks is one line, ended by the end of the
      text. */
  lemma LinesOfLast(p: string)
    requires NoBreak(p) && p != ""
    ensures LinesOf(p, [p], [""])
  {
    assert Assemble([p], [""]) == p + "" + Assemble([], []);
  }

  /** What a cutting says about its first line and terminator. */
  lemma LinesOfHead(s: string, lines: seq<string>, terms: seq<string>)
    requires LinesOf(s, lines, terms) && lines != []
    ensures s == lines[0] + terms[0] + Assemble(lines[1..], terms[1..])
    ensures NoBreak(lines[0])
    ensures Terminator(terms[0]) || (terms[0] == "" && lines[0] != "" && |lines| == 1)
    ensures terms[0] == "\r" ==> !StartsWithLF(Assemble(lines[1..], terms[1..]))
  {
    if |lines| > 1 {
      var ls, ts := lines[1..], terms[1..];
      assert Assemble(ls, ts) == ls[0] + ts[0] + Assemble(ls[1..], ts[1..]);
      assert NoBreak(ls[0]) && !SplitCrLf(terms[0], ls[0], ts[0]);
      assert Terminator(ts[0]) || ls[0] != "" by {
        if |lines| > 2 { assert Terminator(terms[1]); }
      }
    }
  }

  /** `SplitLines` cuts `s` into lines the way `LinesOf` describes. */
  lemma {:induction false} SplitLinesCuts(s: string)
    ensures LinesOf(s, SplitLines(s), LineTerms(s))
    decreases |s|
  {
    if s != [] {
      var i := LineEnd(s);
      if i == |s| {
        assert s[..i] == s;
        LinesOfLast(s);
      } else {
        var n := BreakLength(s, i);
        var p, t, rest := s[..i], s[i..i + n], s[i + n..];
        CutAtLineEnd(s, i, n);
        TermAtLineEnd(s, i, n);
        BreakIsTerminator(s, i);
        ThreeParts(s, i, n);
        SplitLinesCuts(rest);
        LinesOfCons(p, t, rest, SplitLines(rest), LineTerms(rest));
      }
    }
  }

  /** How `SplitLines` and `LineTerms` cut off the first line of a text
      that has a break. */
  lemma CutAtLineEnd(s: string, i: nat, n: nat)
    requires i == LineEnd(s) < |s| && n == BreakLength(s, i)
    ensures SplitLines(s) == [s[..i]] + SplitLines(s[i + n..])
  {
    assert s != [];
  }

  lemma TermAtLineEnd(s: string, i: nat, n: nat)
    requires i == LineEnd(s) < |s| && n == BreakLength(s, i)
    ensures LineTerms(s) == [s[i..i + n]] + LineTerms(s[i + n..])
  {
    assert s != [];
  }

  /** The break `BreakLength` measures at a line-break character is a
      terminator, and it never leaves the LF of a CR LF pair behind. */
  lemma BreakIsTerminator(s: string, i: nat)
    requires i < |s| && IsLineBreak(s[i])
    ensures Terminator(s[i..i + BreakLength(s, i)])
    ensures s[i..i + BreakLength(s, i)] == "\r" ==> !StartsWithLF(s[i + BreakLength(s, i)..])
    ensures forall k :: i <= k < i + BreakLength(s, i) ==> IsLineBreak(s[k])
  {
    var n := BreakLength(s, i);
    var t := s[i..i + n];
    if n == 2 {
      assert t == [s[i], s[i + 1]];
    } else {
      assert t == [s[i]];
    }
  }

  lemma ThreeParts(s: string, i: nat, n: nat)
    requires i + n <= |s|
    ensures s == s[..i] + s[i..i + n] + s[i + n..]
  {
  }

  /** Dropping the first line of a cutting leaves a cutting of the rest. */
  lemma LinesOfTail(s: string, lines: seq<string>, terms: seq<string>)
    requires LinesOf(s, lines, terms) && lines != []
    ensures LinesOf(Assemble(lines[1..], terms[1..]), lines[1..], terms[1..])
  {
    var ls, ts := lines[1..], terms[1..];
    forall k | 0 <= k < |ls| ensures ls[k] == lines[k + 1] && ts[k] == terms[k + 1] {
    }
  }

  /** Any cutting of `s` with the `LinesOf` properties is the one
      `SplitLines` makes: the lines of a text are fully determined. */
  lemma {:induction false} SplitLinesUnique(s: string, lines: seq<string>, terms: seq<string>)
    requires LinesOf(s, lines, terms)
    ensures lines == SplitLines(s) && terms == LineTerms(s)
    decreases |lines|
  {
    if lines != [] {
      LinesOfHead(s, lines, terms);
      LinesOfTail(s, lines, terms);
      var p, t := lines[0], terms[0];
      var rest := Assemble(lines[1..], terms[1..]);
      SplitLinesUnique(rest, lines[1..], terms[1..]);
      FirstLineOf(p, t, rest);
      assert lines == [p] + lines[1..] && terms == [t] + terms[1..];
    }
  }

  /** How `SplitLines` and `LineTerms` take apart a line, its terminator
      (or the end of the text) and the rest. */
  lemma FirstLineOf(p: string, t: string, rest: string)
    requires NoBreak(p)
    requires Terminator(t) || (t == "" && p != "" && rest == "")
    requires t == "\r" ==> !StartsWithLF(rest)
    ensures SplitLines(p + t + rest) == [p] + SplitLines(rest)
    ensures LineTerms(p + t + rest) == [t] + LineTerms(rest)
  {
    var s := p + t + rest;
    var i := |p|;
    if t == "" {
      assert s == p;
      assert LineEnd(s) == |s|;
    } else {
      assert s[..i] == p && s[i] == t[0];
      LineEndIsFirstBreak(s, i);
      if t == "\r\n" {
        assert s[i + 1] == '\n';
      } else if t == "\r" {
        assert !StartsWithLF(rest);
      }
      assert BreakLength(s, i) == |t|;
      assert s[i..i + |t|] == t;
      assert s[i + |t|..] == rest;
    }
  }

  // ---------------------------------------------------------------------
  // Whitespace

  /** The characters `str.strip()` removes: the C0 controls TAB to CR, the
      file to unit separators, SPACE, NEL, NO-BREAK SPACE, OGHAM SPACE MARK,
      the spaces EN QUAD to HAIR SPACE, the line and paragraph separators,
      NARROW NO-BREAK SPACE, MEDIUM MATHEMATICAL SPACE and IDEOGRAPHIC SPACE. */
  predicate IsSpace(c: char) {
    var n := c as int;
    (0x09 <= n <= 0x0D) || (0x1C <= n <= 0x20) || n == 0x85 || n == 0xA0 || n == 0x1680 ||
    (0x2000 <= n <= 0x200A) || n == 0x2028 || n == 0x2029 || n == 0x202F || n == 0x205F || n == 0x3000
  }

  /** How many whitespace characters `s` starts with. */
  function Leading(s: string): (n: nat)
    ensures n <= |s|
    ensures forall k :: 0 <= k < n ==> IsSpace(s[k])
    ensures n < |s| ==> !IsSpace(s[n])
    decreases |s|
  {
    if s != [] && IsSpace(s[0]) then 1 + Leading(s[1..]) else 0
  }

  /** `s` without its trailing whitespace. */
  function TrimEnd(s: string): (r: string)
    ensures |r| <= |s| && r == s[..|r|]
    ensures forall k :: |r| <= k < |s| ==> IsSpace(s[k])
    ensures r == [] || !IsSpace(r[|r| - 1])
    decreases |s|
  {
    if s != [] && IsSpace(s[|s| - 1]) then TrimEnd(s[..|s| - 1]) else s
  }

  /** `s.strip()`: the part of `s` between its leading and its trailing
      whitespace, which neither starts nor ends with whitespace. */
  function Strip(s: string): (r: string)
    ensures Leading(s) + |r| <= |s| && r == s[Leading(s)..Leading(s) + |r|]
    ensures forall k :: Leading(s) + |r| <= k < |s| ==> IsSpace(s[k])
    ensures r == [] || (!IsSpace(r[0]) && !IsSpace(r[|r| - 1]))
  {
    TrimEnd(s[Leading(s)..])
  }

  /** Every character of the stripped text is one of `s`, in order, so a
      text without line breaks stays without them. */
  lemma StripNoBreak(s: string)
    requires NoBreak(s)
    ensures NoBreak(Strip(s))
  {
    var r := Strip(s);
    forall k | 0 <= k < |r|
      ensures !IsLineBreak(r[k])
    {
      assert r[k] == s[Leading(s) + k];
    }
  }

  // ---------------------------------------------------------------------
  // The title

  /** `line.startswith("# ")`: a level-one heading. */
  predicate IsH1(line: string) {
    "# " <= line
  }

  /** The index of the first level-one heading line, if there is one. */
  function FirstH1(lines: seq<string>): (r: Option<nat>)
    ensures r.Some? ==> r.value < |lines| && IsH1(lines[r.value])
    ensures r.Some? ==> forall j :: 0 <= j < r.value ==> !IsH1(lines[j])
    ensures r.None? <==> forall j :: 0 <= j < |lines| ==> !IsH1(lines[j])
    decreases |lines|
  {
    if lines == [] then None
    else if IsH1(lines[0]) then Some(0)
    else
      match FirstH1(lines[1..])
      case None => None
      case Some(k) => Some(k + 1)
  }

  /** Line `k` of `lines` is the first level-one heading. */
  predicate TitleLine(lines: seq<string>, k: int) {
    0 <= k < |lines| && IsH1(lines[k]) && forall j :: 0 <= j < k ==> !IsH1(lines[j])
  }

  /** `extract_title` as a function: the stripped text after "# " on the
      earliest qualifying line, or the error when no line qualifies. */
  function TitleOf(markdown: string): (r: Result<string, TitleError>)
    ensures var lines := SplitLines(markdown);
      && (r.Err? <==> forall k :: 0 <= k < |lines| ==> !IsH1(lines[k]))
      && (r.Err? ==> r.error == MissingH1)
      && (r.Ok? ==> exists k :: TitleLine(lines, k) && r.value == Strip(lines[k][2..]))
  {
    var lines := SplitLines(markdown);
    match FirstH1(lines)
    case None => Err(MissingH1)
    case Some(k) =>
      assert TitleLine(lines, k);
      Ok(Strip(lines[k][2..]))
  }

  /** `extract_title(markdown)`: a loop over the lines with an early return
      on the first line that starts with "# ". */
  method ExtractTitle(markdown: string) returns (r: Result<string, TitleError>)
    ensures r == TitleOf(markdown)
  {
    var lines := SplitLines(markdown);
    for k := 0 to |lines|
      invariant forall j :: 0 <= j < k ==> !IsH1(lines[j])
    {
      var line := lines[k];
      if IsH1(line) {
        assert FirstH1(lines) == Some(k);
        return Ok(Strip(line[2..]));
      }
    }
    return Err(MissingH1);
  }

  /** The `n` characters of `line` from index `i`. */
  function Slice(line: string, i: nat, n: nat): string
    requires i + n <= |line|
  {
    line[i..i + n]
  }

  /** `t` is a run of consecutive characters of `line`. */
  predicate InLine(t: string, line: string) {
    exists i: nat | i + |t| <= |line| :: Slice(line, i, |t|) == t
  }

  /** The stripped rest of a line after its first two characters has no
      whitespace at either end, lies within the line, and, when the line
      has no break, has none either. */
  lemma StrippedRest(line: string)
    requires |line| >= 2 && NoBreak(line)
    ensures var t := Strip(line[2..]);
      && (t == [] || (!IsSpace(t[0]) && !IsSpace(t[|t| - 1])))
      && NoBreak(t)
      && InLine(t, line)
  {
    var rest := line[2..];
    var t := Strip(rest);
    assert NoBreak(rest);
    StripNoBreak(rest);
    var i := 2 + Leading(rest);
    assert Slice(line, i, |t|) == t;
  }

  /** A title has no whitespace at either end, is a run of characters of
      one line of the document, and so contains no line break. */
  lemma TitleShape(markdown: string)
    ensures TitleOf(markdown).Ok? ==>
      var t := TitleOf(markdown).value;
      && (t == [] || (!IsSpace(t[0]) && !IsSpace(t[|t| - 1])))
      && NoBreak(t)
      && exists k :: 0 <= k < |SplitLines(markdown)| && InLine(t, SplitLines(markdown)[k])
  {
    var lines := SplitLines(markdown);
    if FirstH1(lines).Some? {
      var k := FirstH1(lines).value;
      StrippedRest(lines[k]);
    }
  }

  /** A line starting "## " is not a level-one heading. */
  lemma SubheadingIsNotH1(line: string)
    requires "## " <= line
    ensures !IsH1(line)
  {
    assert line[1] == '#';
  }

  /** A document whose first line is a level-one heading has that heading,
      stripped, as its title, whatever follows the line break. */
  lemma {:induction false} TitleOfFirstLine(heading: string, rest: string)
    requires NoBreak(heading)
    ensures TitleOf("# " + heading + "\n" + rest) == Ok(Strip(heading))
  {
    var s := "# " + heading + "\n" + rest;
    var i := 2 + |heading|;
    assert s[..i] == "# " + heading;
    assert NoBreak(s[..i]) && IsLineBreak(s[i]);
    LineEndIsFirstBreak(s, i);
    var lines := SplitLines(s);
    assert lines[0] == "# " + heading;
    assert IsH1(lines[0]);
    assert lines[0][2..] == heading;
  }

  /** The first line break is where `LineEnd` stops. */
  lemma {:induction false} LineEndIsFirstBreak(s: string, i: nat)
    requires i < |s| && NoBreak(s[..i]) && IsLineBreak(s[i])
    ensures LineEnd(s) == i
    decreases i
  {
    if i > 0 {
      assert s[..i][0] == s[0];
      assert s[1..][..i - 1] == s[1..i];
      LineEndIsFirstBreak(s[1..], i - 1);
    }
  }

  /** A document with no lines has no title. */
  lemma EmptyHasNoTitle()
    ensures TitleOf("") == Err(MissingH1)
  {
  }

  /** A first line that is a second-level heading is passed over. */
  lemma SubheadingFirstLine(heading: string, rest: string)
    requires NoBreak(heading)
    ensures TitleOf("## " + heading + "\n" + rest) == TitleOf(rest)
  {
    var s := "## " + heading + "\n" + rest;
    var i := 3 + |heading|;
    assert s[..i] == "## " + heading;
    assert NoBreak(s[..i]) && IsLineBreak(s[i]);
    LineEndIsFirstBreak(s, i);
    assert s[i + 1..] == rest;
    var lines := SplitLines(s);
    assert lines == ["## " + heading] + SplitLines(rest);
    SubheadingIsNotH1(lines[0]);
  }
}
