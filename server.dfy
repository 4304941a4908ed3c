/** The string helpers of the editor server: the offset of each line, the text of
    a selection, the blank lines around a text, line-ending detection and
    replacement, and the newlines added back around a formatted selection. */
module Server {
  import opened Text

  /** `MAX_SEQUENTIAL_NEWLINES` */
  const MaxSequentialNewlines: nat := 3

  /** A position in a document: a line number and a character offset in that line. */
  datatype Position = Position(line: nat, character: nat)

  /** A selection, from `start` to `end`. */
  datatype Range = Range(start: Position, end: Position)

  /** The text of a selection, or `InvalidSelection` when it starts past the last line. */
  datatype Selection = Selected(text: string) | InvalidSelection

  datatype Option<T> = None | Some(value: T)

  // ---------------------------------------------------------------------------
  // _get_line_start_charnos
  // ---------------------------------------------------------------------------

  /** `source.splitlines(keepends=True)` */
  function Chunks(source: string): seq<string> {
    Pieces(SplitLines(source))
  }

  /** The offset at which each line starts: the length of all the lines before it. */
  function LineStarts(source: string): (r: seq<nat>)
    ensures |r| == |SplitLines(source)|
  {
    Offsets(Chunks(source))
  }

  /** The length of the text before each part. */
  function Offsets(p: seq<string>): (r: seq<nat>)
    ensures |r| == |p|
  {
    seq(|p|, k requires 0 <= k < |p| => |Concat(p[..k])|)
  }

  /** `_get_line_start_charnos`: one running total per line. */
  method GetLineStartCharnos(source: string) returns (charnos: seq<nat>)
    ensures charnos == LineStarts(source)
  {
    var lines := Chunks(source);
    var start := 0;
    charnos := [];
    var i := 0;
    while i < |lines|
      invariant 0 <= i <= |lines|
      invariant |charnos| == i && forall k :: 0 <= k < i ==> charnos[k] == |Concat(lines[..k])|
      invariant start == |Concat(lines[..i])|
    {
      charnos := charnos + [start];
      assert lines[..i + 1] == lines[..i] + [lines[i]];
      ConcatAppend(lines[..i], [lines[i]]);
      ConcatSingle(lines[i]);
      start := start + |lines[i]|;
      i := i + 1;
    }
  }

  lemma ConcatSingle(x: string)
    ensures Concat([x]) == x
  {
    assert [x][1..] == [];
    assert x + [] == x;
  }

  /** The text before line `k + 1` is the text before line `k` and line `k`. */
  lemma ConcatNext(p: seq<string>, k: nat)
    requires k < |p|
    ensures Concat(p[..k + 1]) == Concat(p[..k]) + p[k]
  {
    assert p[..k + 1] == p[..k] + [p[k]];
    ConcatAppend(p[..k], [p[k]]);
    ConcatSingle(p[k]);
  }

  /** The text is the text before line `k` followed by the lines from `k` on. */
  lemma ConcatSplit(p: seq<string>, k: nat)
    requires k <= |p|
    ensures Concat(p) == Concat(p[..k]) + Concat(p[k..])
  {
    assert p == p[..k] + p[k..];
    ConcatAppend(p[..k], p[k..]);
  }

  /** Every line holds at least one character, and together they are the text. */
  lemma ChunksSpec(source: string)
    ensures Concat(Chunks(source)) == source
    ensures forall k :: 0 <= k < |Chunks(source)| ==> |Chunks(source)[k]| > 0
  {
    SplitLinesShape(source);
    PiecesSpec(SplitLines(source));
    SplitLinesRoundTrip(source);
  }

  /** Offsets of non-empty parts start at 0, step by the length of each part and
      stay below the length of the whole. */
  lemma OffsetsSpec(p: seq<string>)
    requires forall k :: 0 <= k < |p| ==> |p[k]| > 0
    ensures |p| > 0 ==> Offsets(p)[0] == 0
    ensures forall k :: 0 <= k < |p| - 1 ==> Offsets(p)[k + 1] == Offsets(p)[k] + |p[k]|
    ensures forall k :: 0 <= k < |p| ==> Offsets(p)[k] < |Concat(p)|
  {
    forall k | 0 <= k < |p| ensures Offsets(p)[k] + |p[k]| == |Concat(p[..k + 1])| <= |Concat(p)| {
      ConcatNext(p, k);
      ConcatSplit(p, k + 1);
    }
    if |p| > 0 {
      assert p[..0] == [];
    }
  }

  /** The first line starts at 0, each later line where the one before it ends, the
      offsets strictly increase, and every one is inside the text. */
  lemma LineStartsSpec(source: string)
    ensures |LineStarts(source)| > 0 ==> LineStarts(source)[0] == 0
    ensures forall k :: 0 <= k < |LineStarts(source)| - 1 ==>
              LineStarts(source)[k + 1] == LineStarts(source)[k] + |Chunks(source)[k]|
    ensures forall k :: 0 <= k < |LineStarts(source)| - 1 ==> LineStarts(source)[k] < LineStarts(source)[k + 1]
    ensures forall k :: 0 <= k < |LineStarts(source)| ==> LineStarts(source)[k] < |source|
  {
    ChunksSpec(source);
    OffsetsSpec(Chunks(source));
  }

  // ---------------------------------------------------------------------------
  // _get_text_subset
  // ---------------------------------------------------------------------------

  /** `_get_text_subset`: the text from the start position to the end position, or
      `InvalidSelection` when the start line is past the last line. An end line past
      the last line selects to the end of the text. */
  function GetTextSubset(source: string, sel: Range): (r: Selection)
    ensures r.InvalidSelection? <==> sel.start.line >= |SplitLines(source)|
  {
    var starts := LineStarts(source);
    if sel.start.line >= |starts| then InvalidSelection
    else
      var startCharno := starts[sel.start.line] + sel.start.character;
      var endCharno := if sel.end.line < |starts| then starts[sel.end.line] + sel.end.character else |source|;
      Selected(Slice(source, startCharno, endCharno))
  }

  /** An empty document has no lines, so every selection in it is invalid. */
  lemma TextSubsetOfEmpty(sel: Range)
    ensures GetTextSubset([], sel) == InvalidSelection
  {
  }

  /** Selecting from the start of line `i` to the start of line `j` gives exactly
      lines `i` to `j - 1` with their terminators, or the lines from `i` to the end
      when `j` is past the last line. */
  lemma TextSubsetWholeLines(source: string, i: nat, j: nat)
    requires i < |SplitLines(source)| && i <= j
    ensures var p := Chunks(source);
            var e := if j < |p| then j else |p|;
            GetTextSubset(source, Range(Position(i, 0), Position(j, 0))) == Selected(Concat(p[i..e]))
  {
    var p := Chunks(source);
    var e := if j < |p| then j else |p|;
    SplitLinesRoundTrip(source);
    ConcatMiddle(p, i, e);
    var a, b := |Concat(p[..i])|, |Concat(p[..e])|;
    if j >= |p| {
      assert p[..|p|] == p;
    }
    TextSubsetAt(source, Range(Position(i, 0), Position(j, 0)), a, b);
  }

  /** The selection is the slice between the two offsets `_get_text_subset` computes. */
  lemma TextSubsetAt(source: string, sel: Range, a: nat, b: nat)
    requires sel.start.line < |LineStarts(source)|
    requires a == LineStarts(source)[sel.start.line] + sel.start.character
    requires b == if sel.end.line < |LineStarts(source)| then LineStarts(source)[sel.end.line] + sel.end.character
                  else |source|
    ensures GetTextSubset(source, sel) == Selected(Slice(source, a, b))
  {
  }

  /** The text of parts `i` to `e - 1` sits in the whole between their offsets. */
  lemma ConcatMiddle(p: seq<string>, i: nat, e: nat)
    requires i <= e <= |p|
    ensures |Concat(p[..i])| <= |Concat(p[..e])| <= |Concat(p)|
    ensures Concat(p)[|Concat(p[..i])|..|Concat(p[..e])|] == Concat(p[i..e])
  {
    ConcatSplit(p, e);
    ConcatSplit(p[..e], i);
    assert p[..e][..i] == p[..i] && p[..e][i..] == p[i..e];
  }

  /** A selection from the very start to past the last line is the whole document. */
  lemma TextSubsetWholeDocument(source: string, end: Position)
    requires source != [] && end.line >= |SplitLines(source)|
    ensures GetTextSubset(source, Range(Position(0, 0), end)) == Selected(source)
  {
    var p := Chunks(source);
    ChunksSpec(source);
    assert p[..0] == [];
    assert Slice(source, 0, |source|) == source;
  }

  // ---------------------------------------------------------------------------
  // _count_newlines_at_start_end
  // ---------------------------------------------------------------------------

  /** The number of blank lines before the first non-blank one. */
  function LeadingBlank(ls: seq<string>): (n: nat)
    ensures n <= |ls|
  {
    if ls == [] || !IsBlank(ls[0]) then 0 else 1 + LeadingBlank(ls[1..])
  }

  /** The number of blank lines after the last non-blank one. */
  function TrailingBlank(ls: seq<string>): (n: nat)
    ensures n <= |ls|
  {
    if ls == [] || !IsBlank(ls[|ls| - 1]) then 0 else 1 + TrailingBlank(ls[..|ls| - 1])
  }

  /** `n` lines are blank and the next one, if any, is not. */
  predicate BlankPrefix(ls: seq<string>, n: nat) {
    n <= |ls| && (forall k :: 0 <= k < n ==> IsBlank(ls[k])) && (n < |ls| ==> !IsBlank(ls[n]))
  }

  /** The last `n` lines are blank and the one before them, if any, is not. */
  predicate BlankSuffix(ls: seq<string>, n: nat) {
    n <= |ls| && (forall k :: |ls| - n <= k < |ls| ==> IsBlank(ls[k])) && (n < |ls| ==> !IsBlank(ls[|ls| - 1 - n]))
  }

  lemma {:induction false} LeadingBlankSpec(ls: seq<string>)
    ensures BlankPrefix(ls, LeadingBlank(ls))
  {
    if ls != [] && IsBlank(ls[0]) {
      LeadingBlankSpec(ls[1..]);
    }
  }

  lemma {:induction false} TrailingBlankSpec(ls: seq<string>)
    ensures BlankSuffix(ls, TrailingBlank(ls))
  {
    if ls != [] && IsBlank(ls[|ls| - 1]) {
      TrailingBlankSpec(ls[..|ls| - 1]);
    }
  }

  /** Only one count has the blank-prefix property. */
  lemma BlankPrefixUnique(ls: seq<string>, n: nat, m: nat)
    requires BlankPrefix(ls, n) && BlankPrefix(ls, m)
    ensures n == m
  {
    if n < m {
      assert false;
    } else if m < n {
      assert false;
    }
  }

  lemma BlankSuffixUnique(ls: seq<string>, n: nat, m: nat)
    requires BlankSuffix(ls, n) && BlankSuffix(ls, m)
    ensures n == m
  {
    if n < m {
      assert false;
    } else if m < n {
      assert false;
    }
  }

  /** The two counts of `_count_newlines_at_start_end`: the blank lines at the start,
      and the blank lines at the end plus one when the last line has a terminator.
      An empty text has no last line, where the source raises `IndexError`. */
  function NewlinesAtStartEnd(source: string): Option<(nat, nat)> {
    var split := SplitLines(source);
    if split == [] then None
    else
      var ls := Texts(split);
      var last := split[|split| - 1];
      Some((LeadingBlank(ls), TrailingBlank(ls) + if last.text + last.ending != last.text then 1 else 0))
  }

  /** The first loop of `_count_newlines_at_start_end`: blank lines from the top. */
  method CountLeadingBlank(split: seq<string>) returns (before: nat)
    ensures before == LeadingBlank(split)
  {
    before := 0;
    var i := 0;
    while i < |split|
      invariant before == i <= |split|
      invariant forall k :: 0 <= k < i ==> IsBlank(split[k])
    {
      if !IsBlank(split[i]) {
        break;
      }
      before := before + 1;
      i := i + 1;
    }
    LeadingBlankSpec(split);
    BlankPrefixUnique(split, before, LeadingBlank(split));
  }

  /** The second loop of `_count_newlines_at_start_end`: blank lines from the bottom. */
  method CountTrailingBlank(split: seq<string>) returns (after: nat)
    ensures after == TrailingBlank(split)
  {
    after := 0;
    var j := |split|;
    while j > 0
      invariant 0 <= j <= |split| && after == |split| - j
      invariant forall k :: j <= k < |split| ==> IsBlank(split[k])
    {
      if !IsBlank(split[j - 1]) {
        break;
      }
      after := after + 1;
      j := j - 1;
    }
    TrailingBlankSpec(split);
    BlankSuffixUnique(split, after, TrailingBlank(split));
  }

  /** `_count_newlines_at_start_end` */
  method CountNewlinesAtStartEnd(source: string) returns (r: Option<(nat, nat)>)
    ensures r == NewlinesAtStartEnd(source)
  {
    var lines := SplitLines(source);
    var split := Texts(lines);
    var splitKeepends := Pieces(lines);
    var before := CountLeadingBlank(split);
    var after := CountTrailingBlank(split);
    if lines == [] {
      return None;
    }
    TextsSpec(lines);
    PiecesSpec(lines);
    if splitKeepends[|lines| - 1] != split[|lines| - 1] {
      after := after + 1;
    }
    return Some((before, after));
  }

  /** Counting characterised: the first count is the number of blank lines before
      the first non-blank line, the second the number of blank lines after the last
      non-blank line, plus one when the text ends with a terminator; both are at
      most the number of lines (the second one more), and only an empty text has no
      counts. */
  lemma NewlinesAtStartEndSpec(source: string)
    ensures NewlinesAtStartEnd(source).None? <==> source == []
    ensures NewlinesAtStartEnd(source).Some? ==>
              var ls := Texts(SplitLines(source));
              var (before, after) := NewlinesAtStartEnd(source).value;
              BlankPrefix(ls, before)
              && var extra := if EndsWithBreak(source) then 1 else 0;
              after >= extra && BlankSuffix(ls, after - extra)
  {
    if source != [] {
      var split := SplitLines(source);
      LeadingBlankSpec(Texts(split));
      TrailingBlankSpec(Texts(split));
      LastEnding(source);
    }
  }

  predicate EndsWithBreak(s: string) {
    |s| > 0 && IsLineBreak(s[|s| - 1])
  }

  /** The last line has a terminator exactly when the text ends with a line break. */
  lemma {:induction false} LastEnding(s: string)
    requires s != []
    ensures SplitLines(s)[|SplitLines(s)| - 1].ending != [] <==> EndsWithBreak(s)
    decreases |s|
  {
    var j := NextBreak(s, 0);
    var n := EndingLength(s, j);
    var rest := s[j + n..];
    SplitLinesHead(s);
    if rest != [] {
      LastEnding(rest);
      var tl := SplitLines(rest);
      LastOfCons(Line(s[..j], s[j..j + n]), tl);
      SuffixEndsWithBreak(s, j + n);
    } else {
      OnlyLineEnding(s);
    }
  }

  lemma LastOfCons(x: Line, t: seq<Line>)
    requires t != []
    ensures ([x] + t)[|[x] + t| - 1] == t[|t| - 1]
  {
  }

  lemma SuffixEndsWithBreak(s: string, k: nat)
    requires k < |s|
    ensures EndsWithBreak(s[k..]) == EndsWithBreak(s)
  {
    assert s[k..][|s| - k - 1] == s[|s| - 1];
  }

  /** When the first line is the only one, it has a terminator exactly when the text
      ends with a line break. */
  lemma OnlyLineEnding(s: string)
    requires s != []
    requires s[EndingLength(s, NextBreak(s, 0)) + NextBreak(s, 0)..] == []
    ensures EndingLength(s, NextBreak(s, 0)) > 0 <==> EndsWithBreak(s)
  {
    var j := NextBreak(s, 0);
    var n := EndingLength(s, j);
    if n > 0 {
      EndingBreak(s[j..j + n]);
      assert s[|s| - 1] == s[j..j + n][n - 1];
    } else {
      NextBreakSpec(s, 0);
      assert s[|s| - 1] == s[0..j][|s| - 1];
    }
  }

  /** A non-empty terminator ends with a line break character. */
  lemma EndingBreak(e: string)
    requires IsEnding(e) && e != []
    ensures IsLineBreak(e[|e| - 1])
  {
  }

  // ---------------------------------------------------------------------------
  // _get_line_endings, _match_line_endings
  // ---------------------------------------------------------------------------

  /** Python `s[-2:]`: the last two characters, or the whole string when shorter. */
  function LastTwo(s: string): string {
    if |s| <= 2 then s else s[|s| - 2..]
  }

  /** `_get_line_endings`: CRLF when the first element ends in CRLF, LF otherwise,
      and nothing for an empty list (the `IndexError` the source catches). */
  function GetLineEndings(lines: seq<string>): (r: Option<string>)
    ensures r.None? <==> lines == []
    ensures r.Some? ==> (r.value == "\r\n" <==> EndsWith(lines[0], "\r\n"))
    ensures r.Some? ==> r.value == "\r\n" || r.value == "\n"
  {
    if lines == [] then None
    else if LastTwo(lines[0]) == "\r\n" then Some("\r\n")
    else Some("\n")
  }

  /** Detection on the document's lines with their terminators: CRLF exactly when
      the first line is terminated by CRLF. */
  lemma ChunksLineEndings(source: string)
    ensures GetLineEndings(Chunks(source)).None? <==> source == []
    ensures (GetLineEndings(Chunks(source)) == Some("\r\n"))
            == (source != [] && SplitLines(source)[0].ending == "\r\n")
  {
    if source != [] {
      var ls := SplitLines(source);
      SplitLinesShape(source);
      PiecesSpec(ls);
      var t, e := ls[0].text, ls[0].ending;
      assert Chunks(source)[0] == t + e;
      CrlfEnding(t, e);
    }
  }

  /** A line ends in CRLF exactly when its terminator is CRLF. */
  lemma CrlfEnding(t: string, e: string)
    requires NoBreak(t) && IsEnding(e)
    ensures EndsWith(t + e, "\r\n") <==> e == "\r\n"
  {
    var u := t + e;
    if e == [] {
      assert u == t;
      if |u| >= 1 {
        assert !IsLineBreak(u[|u| - 1]);
      }
    } else if |e| == 1 && |u| >= 2 {
      assert u[|u| - 2] == t[|t| - 1];
      assert !IsLineBreak(u[|u| - 2]);
    }
  }

  /** A string's characters, one per element: what iterating a `str` gives. */
  function Characters(s: string): (r: seq<string>)
    ensures |r| == |s|
  {
    seq(|s|, i requires 0 <= i < |s| => [s[i]])
  }

  /** Handed a `str` instead of a list of lines, as at `server.py:164`, the
      detection sees a single character and never reports CRLF. */
  lemma CharactersLineEndings(source: string)
    ensures GetLineEndings(Characters(source)) == if source == [] then None else Some("\n")
  {
  }

  /** `s.replace(pat, repl)`: every non-overlapping occurrence of `pat`, scanning
      left to right, is replaced by `repl`. */
  function Replace(s: string, pat: string, repl: string): string
    requires pat != []
    decreases |s|
  {
    if |s| < |pat| then s
    else if s[..|pat|] == pat then repl + Replace(s[|pat|..], pat, repl)
    else [s[0]] + Replace(s[1..], pat, repl)
  }

  /** Replacing whitespace by whitespace keeps every other character, in order. */
  lemma {:induction false} ReplaceKeepsText(s: string, pat: string, repl: string)
    requires pat != [] && IsBlank(pat) && IsBlank(repl)
    ensures RemoveSpace(Replace(s, pat, repl)) == RemoveSpace(s)
    decreases |s|
  {
    if |s| >= |pat| {
      if s[..|pat|] == pat {
        ReplaceKeepsText(s[|pat|..], pat, repl);
        assert s == pat + s[|pat|..];
        RemoveSpaceAppend(pat, s[|pat|..]);
        RemoveSpaceAppend(repl, Replace(s[|pat|..], pat, repl));
        RemoveSpaceBlank(pat);
        RemoveSpaceBlank(repl);
      } else {
        ReplaceKeepsText(s[1..], pat, repl);
        assert s == [s[0]] + s[1..];
        RemoveSpaceAppend([s[0]], s[1..]);
        RemoveSpaceAppend([s[0]], Replace(s[1..], pat, repl));
      }
    }
  }

  predicate NoCarriageReturn(s: string) {
    forall i :: 0 <= i < |s| ==> s[i] != '\r'
  }

  /** Every LF is the second half of a CRLF. */
  predicate CrlfOnly(s: string) {
    forall i :: 0 <= i < |s| && s[i] == '\n' ==> i > 0 && s[i - 1] == '\r'
  }

  /** Turning LF into CRLF leaves no bare LF, and the result does not start with one. */
  lemma {:induction false} ReplaceToCrlf(s: string)
    ensures CrlfOnly(Replace(s, "\n", "\r\n"))
    ensures Replace(s, "\n", "\r\n") == [] || Replace(s, "\n", "\r\n")[0] != '\n'
    decreases |s|
  {
    if s != [] {
      ReplaceToCrlf(s[1..]);
      var rest := Replace(s[1..], "\n", "\r\n");
      var r := Replace(s, "\n", "\r\n");
      if s[0] == '\n' {
        assert s[..1] == "\n";
        assert r == "\r\n" + rest;
        assert forall i :: 2 <= i < |r| ==> r[i] == rest[i - 2];
      } else {
        assert s[..1] != "\n";
        assert r == [s[0]] + rest;
        assert forall i :: 1 <= i < |r| ==> r[i] == rest[i - 1];
      }
    }
  }

  /** LF to CRLF and back is the identity on text without CR. */
  lemma {:induction false} ReplaceRoundTrip(s: string)
    requires NoCarriageReturn(s)
    ensures Replace(Replace(s, "\n", "\r\n"), "\r\n", "\n") == s
    decreases |s|
  {
    if s != [] {
      ReplaceRoundTrip(s[1..]);
      var rest := Replace(s[1..], "\n", "\r\n");
      if s[0] == '\n' {
        assert s[..1] == "\n";
        var t := "\r\n" + rest;
        assert Replace(s, "\n", "\r\n") == t;
        assert t[..2] == "\r\n" && t[2..] == rest;
        assert s == "\n" + s[1..];
      } else {
        assert s[..1] != "\n";
        var t := [s[0]] + rest;
        assert Replace(s, "\n", "\r\n") == t;
        if |t| >= 2 {
          assert t[0] == s[0] && s[0] != '\r';
          assert t[..2] != "\r\n";
          assert t[1..] == rest;
        } else {
          assert s[1..] == [];
        }
        assert s == [s[0]] + s[1..];
      }
    }
  }

  /** `_match_line_endings`: when the document's detected terminator and the text's
      differ (and both exist), every occurrence of the text's terminator is
      replaced by the document's. */
  function MatchLineEndings(docSource: string, text: string): string {
    var expected := GetLineEndings(Chunks(docSource));
    var actual := GetLineEndings(Chunks(text));
    if actual == expected || actual.None? || expected.None? then text
    else Replace(text, actual.value, expected.value)
  }

  /** Matching line endings changes only whitespace. */
  lemma MatchLineEndingsKeepsText(docSource: string, text: string)
    ensures RemoveSpace(MatchLineEndings(docSource, text)) == RemoveSpace(text)
  {
    var expected := GetLineEndings(Chunks(docSource));
    var actual := GetLineEndings(Chunks(text));
    if !(actual == expected || actual.None? || expected.None?) {
      var a, e := actual.value, expected.value;
      assert IsEnding(a) && IsEnding(e);
      EndingBlank(a);
      EndingBlank(e);
      ReplaceKeepsText(text, a, e);
    }
  }

  /** True when the first line of `s` is terminated by CRLF. */
  predicate FirstLineCrlf(s: string) {
    s != [] && SplitLines(s)[0].ending == "\r\n"
  }

  /** Text whose first line is terminated like the document's first line, or an
      empty document or text, comes back unchanged. */
  lemma MatchLineEndingsSame(docSource: string, text: string)
    requires docSource == [] || text == [] || FirstLineCrlf(docSource) == FirstLineCrlf(text)
    ensures MatchLineEndings(docSource, text) == text
  {
    ChunksLineEndings(docSource);
    ChunksLineEndings(text);
  }

  /** Into a document whose first line ends in CRLF, text whose first line does not
      comes back with every LF turned into CRLF, so no bare LF remains. */
  lemma MatchLineEndingsToCrlf(docSource: string, text: string)
    requires FirstLineCrlf(docSource) && text != [] && !FirstLineCrlf(text)
    ensures MatchLineEndings(docSource, text) == Replace(text, "\n", "\r\n")
    ensures CrlfOnly(MatchLineEndings(docSource, text))
  {
    ChunksLineEndings(docSource);
    ChunksLineEndings(text);
    ReplaceToCrlf(text);
  }

  /** Into a document whose first line does not end in CRLF, text whose first line
      does comes back with every CRLF turned into LF. */
  lemma MatchLineEndingsToLf(docSource: string, text: string)
    requires docSource != [] && !FirstLineCrlf(docSource) && FirstLineCrlf(text)
    ensures MatchLineEndings(docSource, text) == Replace(text, "\r\n", "\n")
  {
    ChunksLineEndings(docSource);
    ChunksLineEndings(text);
  }

  // ---------------------------------------------------------------------------
  // Newline padding after range formatting (`_formatting_helper`)
  // ---------------------------------------------------------------------------

  /** `min(MAX_SEQUENTIAL_NEWLINES, n)` */
  function Cap(n: nat): (c: nat)
    ensures c <= n && c <= MaxSequentialNewlines
    ensures c == n || c == MaxSequentialNewlines
  {
    if n < MaxSequentialNewlines then n else MaxSequentialNewlines
  }

  /** `max(0, min(MAX_SEQUENTIAL_NEWLINES, expected) - actual)`: how many terminators
      are added on one side. */
  function Missing(expected: nat, actual: nat): (k: nat)
    ensures k <= MaxSequentialNewlines
    ensures actual + k >= Cap(expected)
    ensures k > 0 ==> actual + k == Cap(expected)
  {
    if Cap(expected) > actual then Cap(expected) - actual else 0
  }

  /** The padding step: the newline string repeated `missing_before` times in front
      and `missing_after` times behind, each only when positive. */
  function Pad(newSource: string, expectedBefore: nat, expectedAfter: nat,
               actualBefore: nat, actualAfter: nat, newline: string): string
  {
    var missingBefore := Cap(expectedBefore) - actualBefore;
    var missingAfter := Cap(expectedAfter) - actualAfter;
    var front := if missingBefore > 0 then RepeatStr(newline, missingBefore) + newSource else newSource;
    if missingAfter > 0 then front + RepeatStr(newline, missingAfter) else front
  }

  /** Padding adds exactly `Missing` newline strings on each side and removes
      nothing: the formatted text sits unchanged between them. */
  lemma PadShape(newSource: string, expectedBefore: nat, expectedAfter: nat,
                 actualBefore: nat, actualAfter: nat, newline: string)
    ensures var kb, ka := Missing(expectedBefore, actualBefore), Missing(expectedAfter, actualAfter);
            var r := Pad(newSource, expectedBefore, expectedAfter, actualBefore, actualAfter, newline);
            && r == RepeatStr(newline, kb) + newSource + RepeatStr(newline, ka)
            && |r| == |newSource| + (kb + ka) * |newline|
            && r[kb * |newline|..kb * |newline| + |newSource|] == newSource
  {
    var kb, ka := Missing(expectedBefore, actualBefore), Missing(expectedAfter, actualAfter);
    var r := Pad(newSource, expectedBefore, expectedAfter, actualBefore, actualAfter, newline);
    assert RepeatStr(newline, 0) == [];
    assert r == RepeatStr(newline, kb) + newSource + RepeatStr(newline, ka);
    assert r[kb * |newline|..kb * |newline| + |newSource|] == newSource;
  }

  /** `x or "\n"` for the detected terminator. */
  function NewlineOr(e: Option<string>): string {
    if e.Some? then e.value else "\n"
  }

  /** The padding as written: the newline string comes from `_get_line_endings`
      applied to the document text itself. A count that cannot be taken (the
      `IndexError` on an empty text) gives no result. */
  function PadRangeAsWritten(docSource: string, originalSource: string, newSource: string): Option<string> {
    var expected := NewlinesAtStartEnd(originalSource);
    var actual := NewlinesAtStartEnd(newSource);
    if expected.None? || actual.None? then None
    else
      var newline := NewlineOr(GetLineEndings(Characters(docSource)));
      Some(Pad(newSource, expected.value.0, expected.value.1, actual.value.0, actual.value.1, newline))
  }

  /** The padding with the terminator detected from the document's lines, as
      `_match_line_endings` does it. */
  function PadRange(docSource: string, originalSource: string, newSource: string): Option<string> {
    var expected := NewlinesAtStartEnd(originalSource);
    var actual := NewlinesAtStartEnd(newSource);
    if expected.None? || actual.None? then None
    else
      var newline := NewlineOr(GetLineEndings(Chunks(docSource)));
      Some(Pad(newSource, expected.value.0, expected.value.1, actual.value.0, actual.value.1, newline))
  }

  lemma CrlfOnlyAppend(a: string, b: string)
    requires CrlfOnly(a) && CrlfOnly(b)
    ensures CrlfOnly(a + b)
  {
    assert forall i :: |a| <= i < |a + b| ==> (a + b)[i] == b[i - |a|];
  }

  lemma {:induction false} RepeatCrlf(k: nat)
    ensures CrlfOnly(RepeatStr("\r\n", k))
  {
    if k > 0 {
      RepeatCrlf(k - 1);
      CrlfOnlyAppend("\r\n", RepeatStr("\r\n", k - 1));
    }
  }

  /** Padding inside a document whose first line ends in CRLF adds no bare LF:
      CRLF-only formatted text stays CRLF-only. */
  lemma PadRangeKeepsCrlf(docSource: string, originalSource: string, newSource: string)
    requires FirstLineCrlf(docSource) && CrlfOnly(newSource)
    ensures PadRange(docSource, originalSource, newSource).Some? ==>
              CrlfOnly(PadRange(docSource, originalSource, newSource).value)
  {
    var r := PadRange(docSource, originalSource, newSource);
    if r.Some? {
      ChunksLineEndings(docSource);
      var (eb, ea) := NewlinesAtStartEnd(originalSource).value;
      var (ab, aa) := NewlinesAtStartEnd(newSource).value;
      PadShape(newSource, eb, ea, ab, aa, "\r\n");
      RepeatCrlf(Missing(eb, ab));
      RepeatCrlf(Missing(ea, aa));
      CrlfOnlyAppend(RepeatStr("\r\n", Missing(eb, ab)), newSource);
      CrlfOnlyAppend(RepeatStr("\r\n", Missing(eb, ab)) + newSource, RepeatStr("\r\n", Missing(ea, aa)));
    }
  }

  /** The padding counts do not depend on which variant picks the newline string. */
  lemma PadRangeSameCounts(docSource: string, originalSource: string, newSource: string)
    ensures PadRange(docSource, originalSource, newSource).None?
            == PadRangeAsWritten(docSource, originalSource, newSource).None?
    ensures PadRangeAsWritten(docSource, originalSource, newSource).Some? ==>
              var (eb, ea) := NewlinesAtStartEnd(originalSource).value;
              var (ab, aa) := NewlinesAtStartEnd(newSource).value;
              PadRangeAsWritten(docSource, originalSource, newSource).value
                == RepeatStr("\n", Missing(eb, ab)) + newSource + RepeatStr("\n", Missing(ea, aa))
  {
    var r := PadRangeAsWritten(docSource, originalSource, newSource);
    if r.Some? {
      CharactersLineEndings(docSource);
      var (eb, ea) := NewlinesAtStartEnd(originalSource).value;
      var (ab, aa) := NewlinesAtStartEnd(newSource).value;
      PadShape(newSource, eb, ea, ab, aa, "\n");
    }
  }

  /** The leading blank-line count of a text. */
  function Leading(s: string): nat {
    LeadingBlank(Texts(SplitLines(s)))
  }

  /** Each newline string put in front of a text adds one leading blank line. */
  lemma {:induction false} PrependLeadingBlank(newline: string, k: nat, x: string)
    requires IsNewline(newline)
    ensures Leading(RepeatStr(newline, k) + x) == k + Leading(x)
  {
    RepeatAppend(newline, k, x);
    if k > 0 {
      var y := RepeatStr(newline, k - 1) + x;
      PrependLeadingBlank(newline, k - 1, x);
      PrependOne(newline, y);
      LeadingGlue(RepeatStr(newline, k) + x, newline + y, Leading(y), Leading(x), k);
    }
  }

  lemma LeadingGlue(s: string, t: string, ly: nat, lx: nat, k: nat)
    requires s == t && Leading(t) == 1 + ly && ly == k - 1 + lx
    ensures Leading(s) == k + lx
  {
  }

  predicate IsNewline(e: string) {
    e == "\n" || e == "\r\n"
  }

  lemma PrependOne(newline: string, y: string)
    requires IsNewline(newline)
    ensures Leading(newline + y) == 1 + Leading(y)
  {
    if newline == "\n" {
      SplitLinesNewlinePrefix(y);
    } else {
      SplitLinesCrlfPrefix(y);
    }
    var ts := Texts(SplitLines(newline + y));
    assert ts == [[]] + Texts(SplitLines(y));
    assert ts[1..] == Texts(SplitLines(y));
  }

  /** A CRLF line, a second CRLF line that is empty, and a last line without a
      terminator. */
  lemma ThreeLines(s: string, x: string, u: string)
    requires NoBreak(x) && NoBreak(u) && u != [] && s == x + "\r\n" + ("\r\n" + u)
    ensures SplitLines(s) == [Line(x, "\r\n"), Line([], "\r\n"), Line(u, [])]
  {
    LineThenRest(x, "\r\n", "\r\n" + u);
    CrlfThenLine(u);
  }

  /** An empty CRLF line, then a last line without a terminator. */
  lemma CrlfThenLine(u: string)
    requires NoBreak(u) && u != []
    ensures SplitLines("\r\n" + u) == [Line([], "\r\n"), Line(u, [])]
  {
    BareLine(u);
    SplitLinesCrlfPrefix(u);
  }

  /** A three-line document whose first two lines end in CRLF. */
  lemma CrlfDocumentFacts(docSource: string)
    requires docSource == "x\r\n\r\na"
    ensures SplitLines(docSource) == [Line("x", "\r\n"), Line([], "\r\n"), Line("a", [])]
    ensures FirstLineCrlf(docSource)
  {
    assert "x" + "\r\n" + ("\r\n" + "a") == docSource;
    ThreeLines(docSource, "x", "a");
  }

  /** Selecting from the start of line 1 to past the last line of a three-line
      document gives its last two lines with their terminators. */
  lemma ThirdLineSelection(docSource: string, l0: Line, l1: Line, l2: Line)
    requires SplitLines(docSource) == [l0, l1, l2]
    ensures GetTextSubset(docSource, Range(Position(1, 0), Position(3, 0)))
            == Selected(l1.text + l1.ending + (l2.text + l2.ending))
  {
    var ls := SplitLines(docSource);
    PiecesSpec(ls);
    var p := Chunks(docSource);
    var a, b := l1.text + l1.ending, l2.text + l2.ending;
    TextSubsetWholeLines(docSource, 1, 3);
    assert p[1..3] == [a] + [b];
    ConcatCons(a, [b]);
    ConcatSingle(b);
  }

  /** In that document, the selection from line 1 to past the end is `"\r\na"`. */
  lemma CrlfDocumentSelection(docSource: string)
    requires docSource == "x\r\n\r\na"
    ensures FirstLineCrlf(docSource)
    ensures GetTextSubset(docSource, Range(Position(1, 0), Position(3, 0))) == Selected("\r\na")
  {
    CrlfDocumentFacts(docSource);
    ThirdLineSelection(docSource, Line("x", "\r\n"), Line([], "\r\n"), Line("a", []));
    assert [] + "\r\n" + ("a" + []) == "\r\na";
  }

  /** An empty terminated line followed by one unterminated non-blank line counts
      one blank line in front and none behind. */
  lemma BlankThenLineCounts(s: string, e: string, u: string)
    requires SplitLines(s) == [Line([], e), Line(u, [])] && !IsBlank(u)
    ensures NewlinesAtStartEnd(s) == Some((1, 0))
  {
    var split := SplitLines(s);
    var ls := Texts(split);
    TextsSpec(split);
    assert ls == [[], u];
    assert IsBlank(ls[0]) && ls[1..] == [u] && !IsBlank(ls[|ls| - 1]);
    assert LeadingBlank(ls[1..]) == 0;
    assert LeadingBlank(ls) == 1 && TrailingBlank(ls) == 0;
    assert split[1].text + split[1].ending == u;
  }

  /** The selected text `"\r\na"` counts one blank line in front, none behind. */
  lemma SelectedCounts(selected: string)
    requires selected == "\r\na"
    ensures NewlinesAtStartEnd(selected) == Some((1, 0))
  {
    CrlfThenLine("a");
    assert "\r\n" + "a" == selected;
    assert !IsBlank("a") by {
      assert !IsSpace("a"[0]);
    }
    BlankThenLineCounts(selected, "\r\n", "a");
  }

  /** The formatted text `"a"` counts no blank lines. */
  lemma FormattedCounts(formatted: string)
    requires formatted == "a"
    ensures NewlinesAtStartEnd(formatted) == Some((0, 0))
  {
    assert formatted == "a" + [];
    OneLine("a", []);
    assert !IsBlank("a");
  }

  /** The terminator of the document's first line when it is CRLF, LF otherwise. */
  function DocumentNewline(docSource: string): string {
    if FirstLineCrlf(docSource) then "\r\n" else "\n"
  }

  /** The corrected padding adds `Missing` copies of the document's own terminator
      on each side; it gives nothing exactly when a text is empty. */
  lemma PadRangeShape(docSource: string, originalSource: string, newSource: string)
    ensures PadRange(docSource, originalSource, newSource).None?
            <==> originalSource == [] || newSource == []
    ensures PadRange(docSource, originalSource, newSource).Some? ==>
              var (eb, ea) := NewlinesAtStartEnd(originalSource).value;
              var (ab, aa) := NewlinesAtStartEnd(newSource).value;
              var nl := DocumentNewline(docSource);
              PadRange(docSource, originalSource, newSource).value
                == RepeatStr(nl, Missing(eb, ab)) + newSource + RepeatStr(nl, Missing(ea, aa))
  {
    NewlinesAtStartEndSpec(originalSource);
    NewlinesAtStartEndSpec(newSource);
    var r := PadRange(docSource, originalSource, newSource);
    if r.Some? {
      ChunksLineEndings(docSource);
      var (eb, ea) := NewlinesAtStartEnd(originalSource).value;
      var (ab, aa) := NewlinesAtStartEnd(newSource).value;
      PadShape(newSource, eb, ea, ab, aa, DocumentNewline(docSource));
    }
  }

  /** One blank line expected in front, none present, nothing at the end: both
      variants add a single terminator in front, each its own. */
  lemma PadOneInFront(docSource: string, originalSource: string, newSource: string)
    requires NewlinesAtStartEnd(originalSource) == Some((1, 0))
    requires NewlinesAtStartEnd(newSource) == Some((0, 0))
    ensures PadRange(docSource, originalSource, newSource) == Some(DocumentNewline(docSource) + newSource)
    ensures PadRangeAsWritten(docSource, originalSource, newSource) == Some("\n" + newSource)
  {
    PadRangeSameCounts(docSource, originalSource, newSource);
    PadRangeShape(docSource, originalSource, newSource);
    assert Missing(1, 0) == 1 && Missing(0, 0) == 0;
    RepeatOnce(DocumentNewline(docSource), newSource);
    RepeatOnce("\n", newSource);
  }

  lemma RepeatOnce(nl: string, x: string)
    ensures RepeatStr(nl, 1) + x + RepeatStr(nl, 0) == nl + x
  {
    assert RepeatStr(nl, 1) == nl + RepeatStr(nl, 0);
  }

  /** In a CRLF document, restoring the blank line the formatter dropped from a
      selection adds a bare LF: the selection `"\r\na"` of the document
      `"x\r\n\r\na"`, formatted to `"a"`, is padded with `"\n"` as written, while the
      padding with the document's own terminator keeps it CRLF. */
  lemma PadRangeAsWrittenAddsBareLf(docSource: string, sel: Range, formatted: string)
    requires docSource == "x\r\n\r\na" && sel == Range(Position(1, 0), Position(3, 0)) && formatted == "a"
    ensures GetTextSubset(docSource, sel) == Selected("\r\na")
    ensures FirstLineCrlf(docSource) && CrlfOnly(formatted)
    ensures PadRangeAsWritten(docSource, "\r\na", formatted) == Some("\n" + formatted)
    ensures !CrlfOnly("\n" + formatted)
    ensures PadRange(docSource, "\r\na", formatted) == Some("\r\n" + formatted)
  {
    CrlfDocumentSelection(docSource);
    SelectedCounts("\r\na");
    FormattedCounts(formatted);
    PadInCrlfDocument(docSource, "\r\na", formatted);
    BareLfBeforeLine(formatted);
  }

  /** `"a"` has no LF at all; with an LF in front it has a bare one. */
  lemma BareLfBeforeLine(formatted: string)
    requires formatted == "a"
    ensures CrlfOnly(formatted) && !CrlfOnly("\n" + formatted)
  {
    assert formatted[0] != '\n';
    assert ("\n" + formatted)[0] == '\n';
  }

  /** In a CRLF document, one missing leading blank line is restored as LF as
      written and as CRLF when corrected. */
  lemma PadInCrlfDocument(docSource: string, selected: string, formatted: string)
    requires FirstLineCrlf(docSource)
    requires NewlinesAtStartEnd(selected) == Some((1, 0))
    requires NewlinesAtStartEnd(formatted) == Some((0, 0))
    ensures PadRangeAsWritten(docSource, selected, formatted) == Some("\n" + formatted)
    ensures PadRange(docSource, selected, formatted) == Some("\r\n" + formatted)
  {
    PadOneInFront(docSource, selected, formatted);
  }
}
