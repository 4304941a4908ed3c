/** `compactify.core`: the passes as they run, on a list of lines that is changed
    in place, and `format_code` around them. */
module Compactify {
  import opened Text
  import opened Grouping
  import opened Merging
  import Deindent

  /** The `lines` list that the passes of `format_code` rewrite in place. */
  class LineList {
    var lines: seq<string>

    constructor (ls: seq<string>)
      ensures lines == ls
    {
      lines := ls;
    }

    /** `_merge_lines(lines, group)`: pop the members from the highest index down,
        then insert the merged line at the smallest index. */
    method MergeLines(g: seq<int>)
      requires ValidGroup(lines, g)
      modifies this
      ensures lines == Merged(old(lines), g)
    {
      var newLine := MergedLine(Pick(lines, g));
      ghost var ls := lines;
      var k := |g|;
      assert g[k..] == [];
      KeptNone(ls, [], 0);
      while k > 0
        invariant 0 <= k <= |g|
        invariant lines == Kept(ls, g[k..], 0)
      {
        k := k - 1;
        var i := g[k];
        SliceCons(g, k);
        PopKept(ls, g[k + 1..], i);
        lines := lines[..i] + lines[i + 1..];
      }
      KeptBelowGroup(ls, g);
      lines := lines[..g[0]] + [newLine] + lines[g[0]..];
    }

    /** `for group in reversed(groups): _merge_lines(lines, group)` */
    method MergeReversed(groups: seq<seq<int>>)
      requires RunList(lines, groups)
      modifies this
      ensures lines == MergeRuns(old(lines), groups)
    {
      ghost var ls := lines;
      var k := |groups|;
      assert groups[k..] == [];
      while k > 0
        invariant 0 <= k <= |groups|
        invariant RunList(ls, groups[k..])
        invariant lines == MergeRuns(ls, groups[k..])
      {
        var j := k;
        k := k - 1;
        MergeRunsBack(ls, groups, k, j);
        MergeLines(groups[k]);
      }
      assert groups[0..] == groups;
    }

    /** `collapse_rparen_lines`: merge every run of two or more closer lines. */
    method CollapseRparenLines()
      modifies this
      ensures lines == MergePass(old(lines), Closer)
    {
      var groups := GroupMatchingLines(lines, Closer, 2);
      GroupsRunList(lines, Closer, 2);
      MergeReversed(groups);
    }

    /** `collapse_lparen_lines`: merge every run of two or more opener lines, then
        fuse the first line of each run of opener lines onto the line before it
        when that line ends with an opener. */
    method CollapseLparenLines()
      modifies this
      ensures lines == OpenerPass(old(lines))
    {
      var groups := GroupMatchingLines(lines, Opener, 2);
      GroupsRunList(lines, Opener, 2);
      MergeReversed(groups);
      var starts := GroupMatchingLines(lines, Opener, 1);
      GroupsRunList(lines, Opener, 1);
      FuseReversed(starts);
    }

    /** `for start, *_ in reversed(starts): ...`: fuse the first line of each run
        onto the line before it when that line ends with an opener. */
    method FuseReversed(starts: seq<seq<int>>)
      requires RunList(lines, starts)
      modifies this
      ensures lines == FuseRuns(old(lines), starts)
    {
      ghost var m := lines;
      var k := |starts|;
      assert starts[k..] == [];
      while k > 0
        invariant 0 <= k <= |starts|
        invariant RunList(m, starts[k..])
        invariant lines == FuseRuns(m, starts[k..])
      {
        var j := k;
        k := k - 1;
        FuseRunsBack(m, starts, k, j);
        FuseAtStart(starts[k][0]);
      }
      assert starts[0..] == starts;
    }

    /** `remove_excessive_indent` as written: each line loses its whole accumulated
        de-indent, `lines[i] = lines[i][deindent:]`. */
    method RemoveExcessiveIndent()
      modifies this
      ensures lines == Deindent.DeindentedAsWritten(old(lines))
    {
      if |lines| < 2 {
        return;
      }
      var ls := lines;
      var indents, deindents := Deindent.Plan(ls);
      var i := 0;
      while i < |lines|
        modifies this
        invariant 0 <= i <= |ls| == |lines|
        invariant forall t :: 0 <= t < i ==> lines[t] == Deindent.DropPrefix(ls[t], deindents[t])
        invariant forall t :: i <= t < |ls| ==> lines[t] == ls[t]
      {
        lines := lines[i := Deindent.DropPrefix(lines[i], deindents[i])];
        i := i + 1;
      }
      Deindent.AsWrittenOf(ls, deindents[..], lines);
    }

    /** `remove_excessive_indent` with the cut of each line limited to its own
        indentation, `lines[i] = lines[i][min(deindent, indent):]`. */
    method RemoveExcessiveIndentCapped()
      modifies this
      ensures lines == Deindent.Deindented(old(lines))
    {
      if |lines| < 2 {
        return;
      }
      var ls := lines;
      var indents, deindents := Deindent.Plan(ls);
      var i := 0;
      while i < |lines|
        modifies this
        invariant 0 <= i <= |ls| == |lines|
        invariant forall t :: 0 <= t < i ==> lines[t] == Deindent.DropPrefix(ls[t], Min(deindents[t], indents[t]))
        invariant forall t :: i <= t < |ls| ==> lines[t] == ls[t]
      {
        lines := lines[i := Deindent.DropPrefix(lines[i], Min(deindents[i], indents[i]))];
        i := i + 1;
      }
      ghost var d := deindents[..];
      Deindent.CappedOf(ls, seq(|ls|, t requires 0 <= t < |ls| => Min(d[t], indents[t])), lines);
    }

    /** One iteration of the fusion loop, for the run starting at `start`. */
    method FuseAtStart(start: nat)
      requires start < |lines|
      modifies this
      ensures lines == FuseAt(old(lines), start)
    {
      if start > 0 {
        var before := " " + RStrip(lines[start - 1]);
        var after := LStrip(lines[start]) + " ";
        SentinelTests(lines[start - 1], lines[start]);
        if IsBody(Opener, before[|before| - 1]) && IsBody(Opener, after[0]) {
          lines := lines[start - 1 := RStrip(lines[start - 1]) + LStrip(lines[start])];
          lines := lines[..start] + lines[start + 1..];
        }
      }
    }
  }

  /** The sentinel spaces of the source's tests stand for "no character": a space is
      never an opener. */
  lemma SentinelTests(prev: string, line: string)
    ensures var before := " " + RStrip(prev); IsBody(Opener, before[|before| - 1]) <==> EndsWithOpener(prev)
    ensures var after := LStrip(line) + " "; IsBody(Opener, after[0]) <==> StartsWithOpener(line)
  {
  }

  lemma {:induction false} RunListDrop(ls: seq<string>, gs: seq<seq<int>>, k: nat)
    requires RunList(ls, gs) && k <= |gs|
    ensures RunList(ls, gs[k..])
  {
    if k > 0 {
      RunListDrop(ls, gs[1..], k - 1);
      assert gs[1..][k - 1..] == gs[k..];
    }
  }

  /** One iteration of the reversed merge loop. */
  lemma MergeRunsBack(ls: seq<string>, gs: seq<seq<int>>, k: nat, j: nat)
    requires RunList(ls, gs) && j == k + 1 && j <= |gs|
    ensures RunList(ls, gs[k..]) && RunList(ls, gs[j..])
    ensures ValidGroup(MergeRuns(ls, gs[j..]), gs[k])
    ensures MergeRuns(ls, gs[k..]) == Merged(MergeRuns(ls, gs[j..]), gs[k])
  {
    RunListDrop(ls, gs, k);
    var t := gs[k..];
    assert t[1..] == gs[j..];
    MergeStepPrefix(ls, MergeRuns(ls, t[1..]), t[0], Bound(ls, t[1..]));
  }

  /** One iteration of the reversed fusion loop. */
  lemma FuseRunsBack(ls: seq<string>, gs: seq<seq<int>>, k: nat, j: nat)
    requires RunList(ls, gs) && j == k + 1 && j <= |gs|
    ensures RunList(ls, gs[k..]) && RunList(ls, gs[j..]) && |gs[k]| >= 1
    ensures gs[k][0] < |FuseRuns(ls, gs[j..])|
    ensures FuseRuns(ls, gs[k..]) == FuseAt(FuseRuns(ls, gs[j..]), gs[k][0])
  {
    RunListDrop(ls, gs, k);
    var t := gs[k..];
    assert t[1..] == gs[j..];
    FuseStepPrefix(ls, t, FuseRuns(ls, t[1..]));
  }

  // ---------------------------------------------------------------------------
  // format_code
  // ---------------------------------------------------------------------------

  /** The three passes in the order `format_code` runs them, with the de-indent
      limited to each line's indentation. */
  function Compacted(ls: seq<string>): seq<string> {
    Deindent.Deindented(OpenerPass(MergePass(ls, Closer)))
  }

  /** The same passes with the de-indent as written. */
  function CompactedAsWritten(ls: seq<string>): seq<string> {
    Deindent.DeindentedAsWritten(OpenerPass(MergePass(ls, Closer)))
  }

  /** `line_end_character`: the terminator of the first line, empty when the source
      is a single line without one. */
  function LineEnd(source: string): string
    requires source != []
  {
    SplitLines(source)[0].ending
  }

  /** The lines joined with that terminator, after an empty last line is appended
      when the source ends with it. */
  function Rejoined(source: string, ls: seq<string>): string
    requires source != []
  {
    var e := LineEnd(source);
    Join(if EndsWith(source, e) then ls + [[]] else ls, e)
  }

  /** `format_code` as written: the final validity check tests `source` again, not
      the new text. */
  function FormatCodeAsWritten(source: string, valid: string -> bool): string {
    if IsBlank(source) || !valid(source) then source
    else
      var newSource := Rejoined(source, CompactedAsWritten(Texts(SplitLines(source))));
      if !valid(source) then source else newSource
  }

  /** `format_code` with the final check applied to the new text and the de-indent
      limited to the indentation. */
  method FormatCode(source: string, valid: string -> bool) returns (r: string)
    ensures IsBlank(source) || !valid(source) ==> r == source
    ensures !IsBlank(source) && valid(source) ==>
              var newSource := Rejoined(source, Compacted(Texts(SplitLines(source))));
              r == if valid(newSource) then newSource else source
    ensures valid(source) ==> valid(r)
    ensures RemoveSpace(r) == RemoveSpace(source)
    ensures source != [] && EndsWith(source, LineEnd(source)) ==> EndsWith(r, LineEnd(source))
  {
    if IsBlank(source) {
      return source;
    }
    if !valid(source) {
      return source;
    }
    FormatCodeKeepsText(source);
    FormatCodeKeepsEnding(source);
    var split := SplitLines(source);
    var lineEnd := split[0].ending;
    var l := new LineList(Texts(split));
    l.CollapseRparenLines();
    l.CollapseLparenLines();
    l.RemoveExcessiveIndentCapped();
    if EndsWith(source, lineEnd) {
      l.lines := l.lines + [[]];
    }
    var newSource := Join(l.lines, lineEnd);
    if !valid(newSource) {
      return source;
    }
    return newSource;
  }

  /** The corrected passes keep every non-whitespace character, in order. */
  lemma CompactedContent(ls: seq<string>)
    ensures Content(Compacted(ls)) == Content(ls)
  {
    var m := MergePass(ls, Closer);
    MergePassContent(ls, Closer);
    OpenerPassContent(m);
    Deindent.DeindentedKeepsText(OpenerPass(m));
  }

  /** The passes never add a line, in either version. */
  lemma CompactedShrinks(ls: seq<string>)
    ensures |Compacted(ls)| <= |ls| && |CompactedAsWritten(ls)| <= |ls|
  {
    var m := MergePass(ls, Closer);
    PassesShrink(ls);
    PassesShrink(m);
    Deindent.DeindentedKeepsText(OpenerPass(m));
    Deindent.DeindentedAsWrittenShape(OpenerPass(m));
  }

  /** The line terminator of a source is whitespace. */
  lemma LineEndBlank(source: string)
    requires source != []
    ensures IsBlank(LineEnd(source))
  {
    SplitLinesShape(source);
    EndingBlank(LineEnd(source));
  }

  /** Rejoining adds only whitespace. */
  lemma RejoinedContent(source: string, ls: seq<string>)
    requires source != []
    ensures RemoveSpace(Rejoined(source, ls)) == Content(ls)
  {
    var e := LineEnd(source);
    LineEndBlank(source);
    if EndsWith(source, e) {
      JoinContent(ls + [[]], e);
      ContentAppend(ls, [[]]);
      ContentSingle([]);
      assert Content(ls) + [] == Content(ls);
    } else {
      JoinContent(ls, e);
    }
  }

  /** The new text has exactly the non-whitespace characters of the source. */
  lemma FormatCodeKeepsText(source: string)
    requires source != []
    ensures RemoveSpace(Rejoined(source, Compacted(Texts(SplitLines(source))))) == RemoveSpace(source)
  {
    var ls := Texts(SplitLines(source));
    RejoinedContent(source, Compacted(ls));
    CompactedContent(ls);
    SplitLinesContent(source);
  }

  /** Neither version of the passes empties a non-empty list of lines. */
  lemma CompactedNonEmpty(ls: seq<string>)
    requires ls != []
    ensures Compacted(ls) != [] && CompactedAsWritten(ls) != []
  {
    PassesNonEmpty(ls);
    PassesNonEmpty(MergePass(ls, Closer));
    Deindent.DeindentedKeepsText(OpenerPass(MergePass(ls, Closer)));
    Deindent.DeindentedAsWrittenShape(OpenerPass(MergePass(ls, Closer)));
  }

  /** A source that ends with its line terminator gives a text that ends with it too. */
  lemma RejoinedKeepsEnding(source: string, ls: seq<string>)
    requires source != [] && ls != [] && EndsWith(source, LineEnd(source))
    ensures EndsWith(Rejoined(source, ls), LineEnd(source))
  {
    JoinEndsWithSep(ls + [[]], LineEnd(source));
  }

  /** The final check of `format_code` as written never rejects: whatever passes the
      first check is returned rewritten. */
  lemma FormatCodeAsWrittenNeverRejects(source: string, valid: string -> bool)
    requires !IsBlank(source) && valid(source)
    ensures FormatCodeAsWritten(source, valid) == Rejoined(source, CompactedAsWritten(Texts(SplitLines(source))))
  {
  }

  lemma SplitClosers()
    ensures SplitLines(")\n)") == [Line(")", "\n"), Line(")", "")]
  {
    var s := ")\n)";
    assert NextBreak(s, 0) == 1;
    assert EndingLength(s, 1) == 1;
    assert s[..1] == ")" && s[1..2] == "\n" && s[2..] == ")";
    SplitCloser();
  }

  lemma SplitCloser()
    ensures SplitLines(")") == [Line(")", "")]
  {
    var s := ")";
    assert NextBreak(s, 0) == 1;
    assert EndingLength(s, 1) == 0;
    assert s[..1] == s && s[1..1] == [] && s[1..] == [];
  }

  lemma ClosersRun()
    ensures RunLen([")", ")"], Closer, 0) == 2
  {
    var ls := [")", ")"];
    assert !IsBlank(ls[0]) && !IsBlank(ls[1]) by {
      assert ls[0][0] == ')';
    }
  }

  lemma ClosersMergedLine()
    ensures MergedLine([")", ")"]) == "))"
  {
    var ls := [")", ")"];
    assert LeadingSpace(")") == 0;
    assert MinIndent(ls) == 0;
    assert Concat(ls) == "))";
    assert RemoveSpace("))") == "))";
  }

  lemma ClosersMerge()
    ensures MergePass([")", ")"], Closer) == ["))"]
  {
    var ls := [")", ")"];
    ClosersRun();
    ClosersMergedLine();
    MergePassIsCompress(ls, Closer);
    assert ls[0..0 + 2] == ls;
    assert Head(ls, Closer, 0) == "))";
  }

  lemma OpenerPassKeeps()
    ensures OpenerPass(["))"]) == ["))"]
  {
    var ls := ["))"];
    assert !Matches(ls[0], Opener) by {
      assert ls[0][0] == ')';
    }
    MergePassIsCompress(ls, Opener);
    assert MergePass(ls, Opener) == ls;
    assert RunsFrom(ls, Opener, 0) == [];
    assert Groups(ls, Opener, 1) == [];
  }

  lemma ClosersCompacted(ls: seq<string>)
    requires ls == [")", ")"]
    ensures CompactedAsWritten(ls) == ["))"]
  {
    ClosersMerge();
    OpenerPassKeeps();
    Deindent.DeindentedAsWrittenShape(["))"]);
  }

  lemma ClosersRejoined(source: string)
    requires source == ")\n)"
    ensures !IsBlank(source) && Texts(SplitLines(source)) == [")", ")"]
    ensures Rejoined(source, ["))"]) == "))"
  {
    assert source[0] == ')';
    SplitClosers();
    assert LineEnd(source) == "\n";
    assert source[|source| - 1] == ')';
    assert !EndsWith(source, "\n");
    assert Join(["))"], "\n") == "))";
  }

  /** With an oracle that accepts the two-line source `)` `)` and nothing else, the
      text `format_code` returns as written is one the oracle rejects. */
  lemma FormatCodeAsWrittenReturnsRejected(source: string, valid: string -> bool)
    requires source == ")\n)" && forall s :: valid(s) <==> s == source
    ensures valid(source) && !valid(FormatCodeAsWritten(source, valid))
  {
    ClosersRejoined(source);
    ClosersCompacted(Texts(SplitLines(source)));
    assert FormatCodeAsWritten(source, valid) == "))";
  }

  /** A source that ends with its line terminator gives a new text that ends with it. */
  lemma FormatCodeKeepsEnding(source: string)
    requires source != []
    ensures EndsWith(source, LineEnd(source)) ==> EndsWith(Rejoined(source, Compacted(Texts(SplitLines(source)))), LineEnd(source))
  {
    var ls := Texts(SplitLines(source));
    if EndsWith(source, LineEnd(source)) {
      CompactedNonEmpty(ls);
      RejoinedKeepsEnding(source, Compacted(ls));
    }
  }
}
