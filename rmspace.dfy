/** The trailing-whitespace stripper: `format_str` with its default pattern
    `( |\t)+(?=$|\n)`, which deletes every run of spaces and tabs that is followed
    by a line feed or by the end of the text. */
module Rmspace {

  /** The characters of the class `( |\t)`. */
  predicate IsHSpace(c: char) {
    c == ' ' || c == '\t'
  }

  predicate AllHSpace(w: string) {
    forall i :: 0 <= i < |w| ==> IsHSpace(w[i])
  }

  /** The end of the run of spaces and tabs that starts at `i`: the first position
      from `i` on holding another character, or `|s|`. */
  function RunEnd(s: string, i: nat): (j: nat)
    requires i <= |s|
    ensures i <= j <= |s|
    decreases |s| - i
  {
    if i == |s| || !IsHSpace(s[i]) then i else RunEnd(s, i + 1)
  }

  /** The length of the run of spaces and tabs that starts the text. */
  function RunLength(s: string): (n: nat)
    ensures n <= |s|
  {
    RunEnd(s, 0)
  }

  lemma {:induction false} RunEndOf(s: string, i: nat, j: nat)
    requires i <= j <= |s| && (forall k :: i <= k < j ==> IsHSpace(s[k]))
    requires j < |s| ==> !IsHSpace(s[j])
    ensures RunEnd(s, i) == j
    decreases j - i
  {
    if i < j {
      RunEndOf(s, i + 1, j);
    }
  }

  lemma {:induction false} RunEndSpec(s: string, i: nat)
    requires i <= |s|
    ensures forall k :: i <= k < RunEnd(s, i) ==> IsHSpace(s[k])
    ensures RunEnd(s, i) < |s| ==> !IsHSpace(s[RunEnd(s, i)])
    decreases |s| - i
  {
    if i < |s| && IsHSpace(s[i]) {
      RunEndSpec(s, i + 1);
    }
  }

  /** A run followed by a character outside the class is measured exactly. */
  lemma RunLengthOf(w: string, rest: string)
    requires AllHSpace(w) && (rest == [] || !IsHSpace(rest[0]))
    ensures RunLength(w + rest) == |w|
  {
    var s := w + rest;
    assert forall k :: 0 <= k < |w| ==> s[k] == w[k];
    RunEndOf(s, 0, |w|);
  }

  /** A text that starts outside the class has an empty leading run. */
  lemma RunLengthNone(s: string)
    requires s != [] && !IsHSpace(s[0])
    ensures RunLength(s) == 0
  {
    RunEndOf(s, 0, 0);
  }

  lemma RunLengthSpec(s: string)
    ensures AllHSpace(s[..RunLength(s)])
    ensures RunLength(s) < |s| ==> !IsHSpace(s[RunLength(s)])
  {
    RunEndSpec(s, 0);
    assert forall k :: 0 <= k < RunLength(s) ==> s[..RunLength(s)][k] == s[k];
  }

  /** `_WHITESPACE_RE_PATTERN.sub("", s)`. Scanning left to right, each maximal run
      of spaces and tabs is dropped when a line feed or the end of the text follows
      it, and kept otherwise; every other character is kept. */
  function FormatStr(s: string): string
    decreases |s|
  {
    if s == [] then []
    else
      var n := RunLength(s);
      if n == |s| then []
      else (if s[n] == '\n' then [] else s[..n]) + [s[n]] + FormatStr(s[n + 1..])
  }

  /** No space or tab stands right before a line feed or at the very end: the
      text has nothing left for the pattern to match. */
  predicate NoTrailing(s: string) {
    forall i :: 0 <= i < |s| && IsHSpace(s[i]) ==> i + 1 < |s| && s[i + 1] != '\n'
  }

  /** The text without its spaces and tabs. */
  function Solid(s: string): (r: string)
    ensures |r| <= |s|
  {
    if s == [] then [] else (if IsHSpace(s[0]) then [] else [s[0]]) + Solid(s[1..])
  }

  lemma {:induction false} SolidAppend(a: string, b: string)
    ensures Solid(a + b) == Solid(a) + Solid(b)
  {
    if a != [] {
      assert (a + b)[1..] == a[1..] + b;
      SolidAppend(a[1..], b);
    } else {
      assert a + b == b;
    }
  }

  lemma {:induction false} SolidRun(w: string)
    requires AllHSpace(w)
    ensures Solid(w) == []
  {
    if w != [] {
      SolidRun(w[1..]);
    }
  }

  /** One step of the scan: a run of spaces and tabs, kept only when the character
      after it is not a line feed, then that character. */
  lemma NoTrailingCons(p: string, c: char, rest: string)
    requires AllHSpace(p) && !IsHSpace(c) && (p != [] ==> c != '\n')
    requires NoTrailing(rest)
    ensures NoTrailing(p + [c] + rest)
  {
    var s := p + [c] + rest;
    assert forall i :: 0 <= i < |p| ==> s[i] == p[i];
    assert s[|p|] == c;
    assert forall i :: |p| < i < |s| ==> s[i] == rest[i - |p| - 1];
  }

  /** The result of `format_str` has no trailing space or tab on any line. */
  lemma {:induction false} FormatStrNoTrailing(s: string)
    ensures NoTrailing(FormatStr(s))
    decreases |s|
  {
    if s != [] {
      var n := RunLength(s);
      if n < |s| {
        RunLengthSpec(s);
        FormatStrNoTrailing(s[n + 1..]);
        var p := if s[n] == '\n' then [] else s[..n];
        NoTrailingCons(p, s[n], FormatStr(s[n + 1..]));
      }
    }
  }

  /** A run of spaces and tabs, then a character outside the class, then the rest:
      only the character and the rest count. */
  lemma SolidStep(p: string, c: char, rest: string)
    requires AllHSpace(p) && !IsHSpace(c)
    ensures Solid(p + [c] + rest) == [c] + Solid(rest)
  {
    SolidAppend(p + [c], rest);
    SolidAppend(p, [c]);
    SolidRun(p);
    assert [c][1..] == [];
  }

  /** The scan's first step: the leading run, the character after it and the rest. */
  lemma FormatStrHead(s: string, n: nat)
    requires n == RunLength(s) && n < |s|
    ensures FormatStr(s) == (if s[n] == '\n' then [] else s[..n]) + [s[n]] + FormatStr(s[n + 1..])
  {
  }

  lemma Around(s: string, n: nat)
    requires n < |s|
    ensures s == s[..n] + [s[n]] + s[n + 1..]
  {
  }

  /** Only spaces and tabs are deleted: every other character, line feeds and
      carriage returns included, survives in its original order. */
  lemma {:induction false} FormatStrKeepsSolid(s: string)
    ensures Solid(FormatStr(s)) == Solid(s)
    ensures |FormatStr(s)| <= |s|
    decreases |s|
  {
    if s != [] {
      var n := RunLength(s);
      RunLengthSpec(s);
      if n == |s| {
        assert s[..n] == s;
        SolidRun(s);
      } else {
        FormatStrKeepsSolid(s[n + 1..]);
        FormatStrHead(s, n);
        Around(s, n);
        var p := if s[n] == '\n' then [] else s[..n];
        SolidStep(p, s[n], FormatStr(s[n + 1..]));
        SolidStep(s[..n], s[n], s[n + 1..]);
      }
    }
  }

  /** A run of spaces and tabs followed by any character other than a line feed
      (a carriage return, say) is kept. */
  lemma FormatStrKeepsInnerRun(w: string, c: char, rest: string)
    requires AllHSpace(w) && !IsHSpace(c) && c != '\n'
    ensures FormatStr(w + [c] + rest) == w + [c] + FormatStr(rest)
  {
    var s := w + [c] + rest;
    assert s == w + ([c] + rest);
    RunLengthOf(w, [c] + rest);
    FormatStrHead(s, |w|);
    assert s[..|w|] == w && s[|w|] == c && s[|w| + 1..] == rest;
  }

  /** A run of spaces and tabs followed by a line feed or by the end is dropped. */
  lemma FormatStrDropsTrailingRun(w: string, rest: string)
    requires AllHSpace(w) && (rest == [] || rest[0] == '\n')
    ensures FormatStr(w + rest) == FormatStr(rest)
  {
    if rest == [] {
      assert w + rest == w;
      FormatStrRunAtEnd(w);
    } else {
      FormatStrRunBeforeNewline(w, rest);
    }
  }

  lemma FormatStrRunAtEnd(w: string)
    requires AllHSpace(w)
    ensures FormatStr(w) == []
  {
    assert w + [] == w;
    RunLengthOf(w, []);
  }

  lemma FormatStrRunBeforeNewline(w: string, rest: string)
    requires AllHSpace(w) && rest != [] && rest[0] == '\n'
    ensures FormatStr(w + rest) == FormatStr(rest)
  {
    var s := w + rest;
    RunLengthOf(w, rest);
    RunLengthNone(rest);
    assert s[|w|] == '\n' && s[|w| + 1..] == rest[1..];
    FormatStrAtNewline(s, |w|, rest[1..]);
    FormatStrAtNewline(rest, 0, rest[1..]);
  }

  /** A leading run before a line feed is dropped and the line feed kept. */
  lemma FormatStrAtNewline(s: string, n: nat, tail: string)
    requires n == RunLength(s) && n < |s| && s[n] == '\n' && tail == s[n + 1..]
    ensures FormatStr(s) == ['\n'] + FormatStr(tail)
  {
    FormatStrHead(s, n);
    assert [] + ['\n'] == ['\n'];
  }

  lemma NoTrailingSuffix(s: string, k: nat)
    requires k <= |s| && NoTrailing(s)
    ensures NoTrailing(s[k..])
  {
    assert forall i :: 0 <= i < |s| - k ==> s[k..][i] == s[k + i];
  }

  /** In a clean text, a leading run is followed by a character, and by a line
      feed only when the run is empty. */
  lemma NoTrailingRun(s: string)
    requires NoTrailing(s) && s != []
    ensures RunLength(s) < |s| && (s[RunLength(s)] == '\n' ==> RunLength(s) == 0)
  {
    RunLengthSpec(s);
    var n := RunLength(s);
    if n > 0 {
      assert IsHSpace(s[n - 1]) by {
        assert s[n - 1] == s[..n][n - 1];
      }
    }
  }

  /** A text the pattern finds nothing in is returned unchanged. */
  lemma {:induction false} FormatStrClean(s: string)
    requires NoTrailing(s)
    ensures FormatStr(s) == s
    decreases |s|
  {
    if s != [] {
      var n := RunLength(s);
      NoTrailingRun(s);
      NoTrailingSuffix(s, n + 1);
      FormatStrClean(s[n + 1..]);
      assert s == s[..n] + [s[n]] + s[n + 1..];
    }
  }

  /** `format_str` changes the text exactly when the pattern occurs in it, which is
      the test `format_file` makes before rewriting a file. */
  lemma FormatStrUnchanged(s: string)
    ensures FormatStr(s) == s <==> NoTrailing(s)
  {
    FormatStrNoTrailing(s);
    if NoTrailing(s) {
      FormatStrClean(s);
    }
  }

  /** Stripping twice is stripping once. */
  lemma FormatStrIdempotent(s: string)
    ensures FormatStr(FormatStr(s)) == FormatStr(s)
  {
    FormatStrNoTrailing(s);
    FormatStrClean(FormatStr(s));
  }
}
