/** The string primitives the formatter is built from: Python's `\s` class,
    `str.strip`/`lstrip`/`rstrip`, `str.join`, clamped slicing and
    `str.splitlines`, restricted to their ASCII behaviour. */
module Text {

  /** Whitespace as matched by the regex class `\s` and removed by `str.strip()`. */
  predicate IsSpace(c: char) {
    c == ' ' || c == '\t' || c == '\n' || c == '\r' || c == '\U{0B}' || c == '\U{0C}'
    || c == '\U{1C}' || c == '\U{1D}' || c == '\U{1E}' || c == '\U{1F}'
  }

  /** Concatenation regroups freely. */
  lemma AppendAssoc<T>(x: seq<T>, y: seq<T>, z: seq<T>)
    ensures x + (y + z) == (x + y) + z
  {
  }

  /** An empty middle piece disappears. */
  lemma AppendNil<T>(x: seq<T>, y: seq<T>)
    ensures x + [] + y == x + y
  {
  }

  lemma SliceCons<T>(s: seq<T>, j: nat)
    requires j < |s|
    ensures s[j..] == [s[j]] + s[j + 1..]
  {
  }

  /** Characters at which `str.splitlines()` ends a line. */
  predicate IsLineBreak(c: char) {
    c == '\n' || c == '\r' || c == '\U{0B}' || c == '\U{0C}'
    || c == '\U{1C}' || c == '\U{1D}' || c == '\U{1E}'
  }

  lemma LineBreakIsSpace(c: char)
    requires IsLineBreak(c)
    ensures IsSpace(c)
  {
  }

  /** `not s.strip()`: the string is empty or all whitespace. */
  predicate IsBlank(s: string) {
    forall i :: 0 <= i < |s| ==> IsSpace(s[i])
  }

  /** `min(a, b)` */
  function Min(a: int, b: int): int {
    if a <= b then a else b
  }

  /** `len(s) - len(s.lstrip())`: the number of leading whitespace characters. */
  function LeadingSpace(s: string): (n: nat)
    ensures n <= |s|
  {
    if s == [] || !IsSpace(s[0]) then 0 else 1 + LeadingSpace(s[1..])
  }

  /** What is skipped is whitespace, and it stops at the first other character. */
  lemma {:induction false} LeadingSpaceSpec(s: string)
    ensures IsBlank(s[..LeadingSpace(s)])
    ensures LeadingSpace(s) < |s| ==> !IsSpace(s[LeadingSpace(s)])
  {
    if s != [] && IsSpace(s[0]) {
      LeadingSpaceSpec(s[1..]);
      assert s[..LeadingSpace(s)] == [s[0]] + s[1..][..LeadingSpace(s[1..])];
    }
  }

  /** A stretch of `n` whitespace characters followed by another character or by
      the end is exactly the leading whitespace. */
  lemma {:induction false} LeadingSpaceOf(s: string, n: nat)
    requires n <= |s| && (forall k :: 0 <= k < n ==> IsSpace(s[k]))
    requires n < |s| ==> !IsSpace(s[n])
    ensures LeadingSpace(s) == n
  {
    if n > 0 {
      assert forall k :: 0 <= k < n - 1 ==> s[1..][k] == s[k + 1];
      LeadingSpaceOf(s[1..], n - 1);
    }
  }

  /** The number of trailing whitespace characters. */
  function TrailingSpace(s: string): (n: nat)
    ensures n <= |s|
  {
    if s == [] || !IsSpace(s[|s| - 1]) then 0 else 1 + TrailingSpace(s[..|s| - 1])
  }

  lemma {:induction false} TrailingSpaceSpec(s: string)
    ensures IsBlank(s[|s| - TrailingSpace(s)..])
    ensures TrailingSpace(s) < |s| ==> !IsSpace(s[|s| - TrailingSpace(s) - 1])
  {
    if s != [] && IsSpace(s[|s| - 1]) {
      var init := s[..|s| - 1];
      TrailingSpaceSpec(init);
      assert s[|s| - TrailingSpace(s)..] == init[|init| - TrailingSpace(init)..] + [s[|s| - 1]];
    }
  }

  /** `s.lstrip()` */
  function LStrip(s: string): (r: string)
    ensures |r| <= |s| && r == s[|s| - |r|..]
  {
    s[LeadingSpace(s)..]
  }

  lemma LStripSpec(s: string)
    ensures IsBlank(s[..|s| - |LStrip(s)|])
    ensures LStrip(s) == [] || !IsSpace(LStrip(s)[0])
  {
    LeadingSpaceSpec(s);
  }

  /** `s.rstrip()` */
  function RStrip(s: string): (r: string)
    ensures |r| <= |s| && r == s[..|r|]
  {
    s[..|s| - TrailingSpace(s)]
  }

  lemma RStripSpec(s: string)
    ensures IsBlank(s[|RStrip(s)|..])
    ensures RStrip(s) == [] || !IsSpace(RStrip(s)[|RStrip(s)| - 1])
  {
    TrailingSpaceSpec(s);
  }

  lemma {:induction false} BlankIffNoLeadingContent(s: string)
    ensures IsBlank(s) <==> LeadingSpace(s) == |s|
  {
    LeadingSpaceSpec(s);
  }

  /** `re.sub(r"\s", "", s)`: every whitespace character deleted. */
  function RemoveSpace(s: string): (r: string)
    ensures |r| <= |s|
  {
    if s == [] then [] else (if IsSpace(s[0]) then [] else [s[0]]) + RemoveSpace(s[1..])
  }

  predicate NoSpace(s: string) {
    forall i :: 0 <= i < |s| ==> !IsSpace(s[i])
  }

  /** No whitespace is left after removing whitespace. */
  lemma {:induction false} RemoveSpaceLeavesNone(s: string)
    ensures NoSpace(RemoveSpace(s))
  {
    if s != [] {
      RemoveSpaceLeavesNone(s[1..]);
      var head := if IsSpace(s[0]) then [] else [s[0]];
      assert RemoveSpace(s) == head + RemoveSpace(s[1..]);
    }
  }

  lemma {:induction false} RemoveSpaceAppend(a: string, b: string)
    ensures RemoveSpace(a + b) == RemoveSpace(a) + RemoveSpace(b)
  {
    if a != [] {
      assert (a + b)[1..] == a[1..] + b;
      RemoveSpaceAppend(a[1..], b);
    } else {
      assert a + b == b;
    }
  }

  lemma {:induction false} RemoveSpaceBlank(s: string)
    ensures IsBlank(s) <==> RemoveSpace(s) == []
  {
    if s != [] {
      RemoveSpaceBlank(s[1..]);
      assert IsBlank(s) <==> IsSpace(s[0]) && IsBlank(s[1..]);
    }
  }

  /** A string with no whitespace is its own whitespace-free form. */
  /** Stripping only removes whitespace. */
  lemma RemoveSpaceStrip(s: string)
    ensures RemoveSpace(LStrip(s)) == RemoveSpace(s)
    ensures RemoveSpace(RStrip(s)) == RemoveSpace(s)
  {
    LStripSpec(s);
    RStripSpec(s);
    var n, m := |s| - |LStrip(s)|, |RStrip(s)|;
    assert s == s[..n] + LStrip(s);
    assert s == RStrip(s) + s[m..];
    RemoveSpaceAppend(s[..n], LStrip(s));
    RemoveSpaceAppend(RStrip(s), s[m..]);
    RemoveSpaceBlank(s[..n]);
    RemoveSpaceBlank(s[m..]);
  }

  lemma {:induction false} RemoveSpaceNoSpace(s: string)
    requires NoSpace(s)
    ensures RemoveSpace(s) == s
  {
    if s != [] {
      RemoveSpaceNoSpace(s[1..]);
    }
  }

  /** `n * c` for a one-character string `c`. */
  function Repeat(c: char, n: nat): (r: string)
    ensures |r| == n
  {
    if n == 0 then [] else [c] + Repeat(c, n - 1)
  }

  /** Repeating a whitespace character gives a blank string. */
  lemma {:induction false} RepeatBlank(c: char, n: nat)
    requires n == 0 || IsSpace(c)
    ensures IsBlank(Repeat(c, n))
  {
    RepeatSpec(c, n);
  }

  lemma {:induction false} RepeatSpec(c: char, n: nat)
    ensures forall i :: 0 <= i < n ==> Repeat(c, n)[i] == c
  {
    if n > 0 {
      RepeatSpec(c, n - 1);
      assert forall i :: 1 <= i < n ==> Repeat(c, n)[i] == Repeat(c, n - 1)[i - 1];
    }
  }

  /** `n * s` for a string `s`. */
  function RepeatStr(s: string, n: nat): (r: string)
    ensures |r| == n * |s|
  {
    if n == 0 then [] else s + RepeatStr(s, n - 1)
  }

  lemma RepeatAppend(s: string, k: nat, x: string)
    ensures k == 0 ==> RepeatStr(s, k) + x == x
    ensures k > 0 ==> RepeatStr(s, k) + x == s + (RepeatStr(s, k - 1) + x)
  {
    if k > 0 {
      assert RepeatStr(s, k) == s + RepeatStr(s, k - 1);
    } else {
      assert RepeatStr(s, k) == [];
    }
  }

  /** `"".join(ss)` */
  function Concat(ss: seq<string>): string {
    if ss == [] then [] else ss[0] + Concat(ss[1..])
  }

  lemma {:induction false} ConcatAppend(a: seq<string>, b: seq<string>)
    ensures Concat(a + b) == Concat(a) + Concat(b)
  {
    if a != [] {
      assert (a + b)[1..] == a[1..] + b;
      ConcatAppend(a[1..], b);
    } else {
      assert a + b == b;
    }
  }

  /** The non-whitespace characters of a list of lines, in order. */
  function Content(ss: seq<string>): string {
    RemoveSpace(Concat(ss))
  }

  lemma ContentCons(x: string, rest: seq<string>)
    ensures Content([x] + rest) == RemoveSpace(x) + Content(rest)
  {
    assert ([x] + rest)[1..] == rest;
    RemoveSpaceAppend(x, Concat(rest));
  }

  lemma ContentSingle(x: string)
    ensures Content([x]) == RemoveSpace(x)
  {
    assert Concat([x]) == x + Concat([]);
    assert x + [] == x;
  }

  lemma ContentAppend(a: seq<string>, b: seq<string>)
    ensures Content(a + b) == Content(a) + Content(b)
  {
    ConcatAppend(a, b);
    RemoveSpaceAppend(Concat(a), Concat(b));
  }

  lemma ContentSlices(ss: seq<string>, a: nat, m: nat)
    requires a <= m <= |ss|
    ensures Content(ss[a..]) == Content(ss[a..m]) + Content(ss[m..])
  {
    assert ss[a..] == ss[a..m] + ss[m..];
    ContentAppend(ss[a..m], ss[m..]);
  }

  /** Lists whose lines have the same non-whitespace characters have the same content. */
  lemma {:induction false} ContentPointwise(a: seq<string>, b: seq<string>)
    requires |a| == |b| && forall j :: 0 <= j < |a| ==> RemoveSpace(a[j]) == RemoveSpace(b[j])
    ensures Content(a) == Content(b)
  {
    if a != [] {
      ContentPointwise(a[1..], b[1..]);
      assert a == [a[0]] + a[1..] && b == [b[0]] + b[1..];
      ContentCons(a[0], a[1..]);
      ContentCons(b[0], b[1..]);
    }
  }

  /** `sep.join(ss)` */
  function Join(ss: seq<string>, sep: string): string {
    if ss == [] then [] else if |ss| == 1 then ss[0] else ss[0] + sep + Join(ss[1..], sep)
  }

  /** Joining a list that ends in an empty string leaves the text ending in the separator. */
  lemma {:induction false} JoinEndsWithSep(ss: seq<string>, sep: string)
    requires |ss| >= 2 && ss[|ss| - 1] == []
    ensures EndsWith(Join(ss, sep), sep)
  {
    if |ss| == 2 {
      assert Join(ss, sep) == ss[0] + sep + [];
    } else {
      JoinEndsWithSep(ss[1..], sep);
    }
  }

  predicate EndsWith(s: string, suffix: string) {
    |suffix| <= |s| && s[|s| - |suffix|..] == suffix
  }

  /** Python `s[a:b]` for non-negative bounds: both bounds are clamped to the length,
      and a start past the end gives the empty string. */
  function Slice(s: string, a: nat, b: nat): (r: string)
    ensures |r| <= |s|
    ensures a <= b <= |s| ==> r == s[a..b]
    ensures b <= a || |s| <= a ==> r == []
    ensures a <= |s| && |s| <= b ==> r == s[a..]
  {
    var lo := if a <= |s| then a else |s|;
    var hi := if b <= |s| then b else |s|;
    if lo <= hi then s[lo..hi] else []
  }

  // ---------------------------------------------------------------------------
  // str.splitlines
  // ---------------------------------------------------------------------------

  /** One line as `str.splitlines` sees it: its text and the terminator that ended it. */
  datatype Line = Line(text: string, ending: string)

  /** A terminator `splitlines` recognises: "\r\n" or a single break character,
      or nothing for a last line without one. */
  predicate IsEnding(e: string) {
    e == [] || e == "\r\n" || (|e| == 1 && IsLineBreak(e[0]))
  }

  predicate NoBreak(s: string) {
    forall i :: 0 <= i < |s| ==> !IsLineBreak(s[i])
  }

  /** The first break position at or after `i`, or `|s|`. */
  function NextBreak(s: string, i: nat): (j: nat)
    requires i <= |s|
    ensures i <= j <= |s|
    ensures j < |s| ==> IsLineBreak(s[j])
    decreases |s| - i
  {
    if i == |s| || IsLineBreak(s[i]) then i else NextBreak(s, i + 1)
  }

  /** Nothing before the break found is a break. */
  lemma {:induction false} NextBreakSpec(s: string, i: nat)
    requires i <= |s|
    ensures NoBreak(s[i..NextBreak(s, i)])
    decreases |s| - i
  {
    if i < |s| && !IsLineBreak(s[i]) {
      NextBreakSpec(s, i + 1);
      assert s[i..NextBreak(s, i)] == [s[i]] + s[i + 1..NextBreak(s, i)];
    }
  }

  /** The length of the terminator that starts at `j`. */
  function EndingLength(s: string, j: nat): (n: nat)
    requires j <= |s|
    ensures j + n <= |s|
    ensures IsEnding(s[j..j + n])
    ensures j < |s| && IsLineBreak(s[j]) ==> n > 0
  {
    if j == |s| || !IsLineBreak(s[j]) then 0
    else if s[j] == '\r' && j + 1 < |s| && s[j + 1] == '\n' then 2
    else 1
  }

  /** `str.splitlines()`, keeping each line's terminator beside its text. */
  function SplitLines(s: string): (r: seq<Line>)
    ensures s == [] <==> r == []
    decreases |s|
  {
    if s == [] then []
    else
      var j := NextBreak(s, 0);
      var n := EndingLength(s, j);
      assert j == |s| || n > 0;
      [Line(s[..j], s[j..j + n])] + SplitLines(s[j + n..])
  }

  /** The first line of a non-empty text and the lines after it. */
  lemma SplitLinesHead(s: string)
    requires s != []
    ensures var j := NextBreak(s, 0);
            var n := EndingLength(s, j);
            SplitLines(s) == [Line(s[..j], s[j..j + n])] + SplitLines(s[j + n..])
  {
  }

  /** A text is its first line's text, its terminator and the rest. */
  lemma SplitAtFirstBreak(s: string)
    requires s != []
    ensures var j := NextBreak(s, 0);
            var n := EndingLength(s, j);
            s == s[..j] + s[j..j + n] + s[j + n..]
  {
  }

  /** Every line is free of breaks and ends in a terminator (or nothing), no line is
      empty altogether, and only the last can lack a terminator. */
  predicate WellSplit(r: seq<Line>) {
    && (forall k :: 0 <= k < |r| ==> NoBreak(r[k].text) && IsEnding(r[k].ending))
    && (forall k :: 0 <= k < |r| ==> r[k].text + r[k].ending != [])
    && (forall k :: 0 <= k < |r| - 1 ==> r[k].ending != [])
  }

  lemma WellSplitCons(x: Line, rest: seq<Line>)
    requires NoBreak(x.text) && IsEnding(x.ending) && x.text + x.ending != []
    requires rest != [] ==> x.ending != []
    requires WellSplit(rest)
    ensures WellSplit([x] + rest)
  {
    assert forall k :: 1 <= k < |rest| + 1 ==> ([x] + rest)[k] == rest[k - 1];
  }

  lemma {:induction false} SplitLinesShape(s: string)
    ensures WellSplit(SplitLines(s))
    decreases |s|
  {
    if s != [] {
      var j := NextBreak(s, 0);
      var n := EndingLength(s, j);
      SplitLinesShape(s[j + n..]);
      NextBreakSpec(s, 0);
      WellSplitCons(Line(s[..j], s[j..j + n]), SplitLines(s[j + n..]));
    }
  }

  /** `s.splitlines(keepends=False)` */
  function Texts(ls: seq<Line>): (r: seq<string>)
    ensures |r| == |ls|
  {
    if ls == [] then [] else [ls[0].text] + Texts(ls[1..])
  }

  lemma {:induction false} TextsSpec(ls: seq<Line>)
    ensures forall k :: 0 <= k < |ls| ==> Texts(ls)[k] == ls[k].text
  {
    if ls != [] {
      TextsSpec(ls[1..]);
    }
  }

  /** `s.splitlines(keepends=True)` */
  function Pieces(ls: seq<Line>): (r: seq<string>)
    ensures |r| == |ls|
  {
    if ls == [] then [] else [ls[0].text + ls[0].ending] + Pieces(ls[1..])
  }

  lemma {:induction false} PiecesSpec(ls: seq<Line>)
    ensures forall k :: 0 <= k < |ls| ==> Pieces(ls)[k] == ls[k].text + ls[k].ending
  {
    if ls != [] {
      PiecesSpec(ls[1..]);
    }
  }

  /** Splitting loses nothing: the lines with their terminators give back the text. */
  lemma {:induction false} SplitLinesRoundTrip(s: string)
    ensures Concat(Pieces(SplitLines(s))) == s
    decreases |s|
  {
    if s != [] {
      var j := NextBreak(s, 0);
      var n := EndingLength(s, j);
      SplitLinesHead(s);
      SplitAtFirstBreak(s);
      var x := Line(s[..j], s[j..j + n]);
      var rest := SplitLines(s[j + n..]);
      SplitLinesRoundTrip(s[j + n..]);
      PiecesCons(x, rest);
      ConcatCons(x.text + x.ending, Pieces(rest));
    }
  }

  /** A terminator is whitespace. */
  lemma EndingBlank(e: string)
    requires IsEnding(e)
    ensures IsBlank(e)
  {
    if |e| == 1 {
      LineBreakIsSpace(e[0]);
    }
  }

  /** Dropping the terminators keeps the non-whitespace characters. */
  lemma {:induction false} PiecesContent(ls: seq<Line>)
    requires forall k :: 0 <= k < |ls| ==> IsEnding(ls[k].ending)
    ensures Content(Pieces(ls)) == Content(Texts(ls))
  {
    if ls != [] {
      var x := ls[0];
      assert ls == [x] + ls[1..];
      PiecesContent(ls[1..]);
      PiecesCons(x, ls[1..]);
      ContentCons(x.text + x.ending, Pieces(ls[1..]));
      ContentCons(x.text, Texts(ls[1..]));
      EndingBlank(x.ending);
      RemoveSpaceAppend(x.text, x.ending);
      RemoveSpaceBlank(x.ending);
    }
  }

  /** The lines `splitlines` gives hold the non-whitespace characters of the text. */
  lemma SplitLinesContent(s: string)
    ensures Content(Texts(SplitLines(s))) == RemoveSpace(s)
  {
    SplitLinesShape(s);
    SplitLinesRoundTrip(s);
    PiecesContent(SplitLines(s));
  }

  /** Joining with a whitespace separator keeps exactly the non-whitespace characters
      of the parts. */
  lemma {:induction false} JoinContent(ss: seq<string>, sep: string)
    requires IsBlank(sep)
    ensures RemoveSpace(Join(ss, sep)) == Content(ss)
  {
    RemoveSpaceBlank(sep);
    if |ss| == 1 {
      assert ss == [ss[0]];
      ContentSingle(ss[0]);
    } else if |ss| > 1 {
      JoinContent(ss[1..], sep);
      assert ss == [ss[0]] + ss[1..];
      ContentCons(ss[0], ss[1..]);
      RemoveSpaceAppend(ss[0] + sep, Join(ss[1..], sep));
      RemoveSpaceAppend(ss[0], sep);
    }
  }

  lemma PiecesCons(x: Line, ls: seq<Line>)
    ensures Pieces([x] + ls) == [x.text + x.ending] + Pieces(ls)
  {
    assert ([x] + ls)[1..] == ls;
  }

  lemma ConcatCons(x: string, ss: seq<string>)
    ensures Concat([x] + ss) == x + Concat(ss)
  {
    assert ([x] + ss)[1..] == ss;
  }

  /** A leading "\n" adds exactly one empty line in front. */
  lemma SplitLinesNewlinePrefix(s: string)
    ensures SplitLines("\n" + s) == [Line([], "\n")] + SplitLines(s)
  {
    var t := "\n" + s;
    assert NextBreak(t, 0) == 0;
    assert EndingLength(t, 0) == 1;
    assert t[1..] == s;
  }

  lemma SplitLinesCrlfPrefix(s: string)
    ensures SplitLines("\r\n" + s) == [Line([], "\r\n")] + SplitLines(s)
  {
    var t := "\r\n" + s;
    assert NextBreak(t, 0) == 0;
    assert EndingLength(t, 0) == 2;
    assert t[2..] == s;
  }

  /** Without a break, the search runs to the end. */
  lemma {:induction false} NextBreakNone(s: string, i: nat)
    requires i <= |s| && NoBreak(s[i..])
    ensures NextBreak(s, i) == |s|
    decreases |s| - i
  {
    if i < |s| {
      assert s[i] == s[i..][0];
      assert s[i + 1..] == s[i..][1..];
      NextBreakNone(s, i + 1);
    }
  }

  /** A text without breaks, followed by LF or CRLF, is one line. */
  lemma OneLine(t: string, e: string)
    requires NoBreak(t) && (e == [] || e == "\n" || e == "\r\n") && t + e != []
    ensures SplitLines(t + e) == [Line(t, e)]
  {
    if e == [] {
      assert t + e == t;
      BareLine(t);
    } else {
      EndedLine(t, e);
    }
  }

  lemma BareLine(t: string)
    requires NoBreak(t) && t != []
    ensures SplitLines(t) == [Line(t, [])]
  {
    assert t[0..] == t;
    NextBreakNone(t, 0);
    SplitLinesHead(t);
    assert t[..|t|] == t && t[|t|..] == [];
  }

  lemma EndedLine(t: string, e: string)
    requires NoBreak(t) && (e == "\n" || e == "\r\n")
    ensures SplitLines(t + e) == [Line(t, e)]
  {
    var s := t + e;
    NoBreakPrefix(t, e);
    EndingAt(s, t, e);
    NextBreakAt(s, 0, |t|);
    SplitLinesHead(s);
    AppendParts(t, e);
  }

  /** A line ended by LF or CRLF is split off the front of whatever follows it. */
  lemma LineThenRest(t: string, e: string, rest: string)
    requires NoBreak(t) && (e == "\n" || e == "\r\n")
    ensures SplitLines(t + e + rest) == [Line(t, e)] + SplitLines(rest)
  {
    var s := t + e + rest;
    forall k | 0 <= k < |t| ensures !IsLineBreak(s[k]) {
      assert s[k] == t[k];
    }
    assert s[|t|] == e[0];
    if e == "\r\n" {
      assert s[|t| + 1] == '\n';
    }
    NextBreakAt(s, 0, |t|);
    assert EndingLength(s, |t|) == |e|;
    SplitLinesHead(s);
    assert s[..|t|] == t && s[|t|..|t| + |e|] == e && s[|t| + |e|..] == rest;
  }

  lemma NoBreakPrefix(t: string, e: string)
    requires NoBreak(t)
    ensures forall k :: 0 <= k < |t| ==> !IsLineBreak((t + e)[k])
  {
    assert forall k :: 0 <= k < |t| ==> (t + e)[k] == t[k];
  }

  lemma AppendParts(t: string, e: string)
    ensures (t + e)[..|t|] == t && (t + e)[|t|..|t| + |e|] == e && (t + e)[|t| + |e|..] == []
  {
  }

  lemma EndingAt(s: string, t: string, e: string)
    requires s == t + e && (e == "\n" || e == "\r\n")
    ensures EndingLength(s, |t|) == |e| && IsLineBreak(s[|t|])
  {
    assert s[|t|] == e[0];
    if e == "\r\n" {
      assert s[|t| + 1] == '\n';
    } else {
      assert |t| + 1 == |s|;
    }
  }

  /** The first break at or after `i` is the first position from `i` on holding one. */
  lemma {:induction false} NextBreakAt(s: string, i: nat, j: nat)
    requires i <= j <= |s| && (forall k :: i <= k < j ==> !IsLineBreak(s[k]))
    requires j < |s| ==> IsLineBreak(s[j])
    ensures NextBreak(s, i) == j
    decreases j - i
  {
    if i < j {
      NextBreakAt(s, i + 1, j);
    }
  }
}
