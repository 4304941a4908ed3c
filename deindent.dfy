/** The arithmetic of `remove_excessive_indent`: the indent each line should
    have at most, how far a too-deep line pushes the lines below it, and the
    lines that result. */
module Deindent {
  import opened Text

  /** The indentation of the nearest non-blank line above line `i`, or 0 when there
      is none (the backward `for j in range(i - 1, -1, -1)` search). */
  function PrevIndent(ls: seq<string>, i: nat): nat
    requires i <= |ls|
  {
    if i == 0 then 0
    else if !IsBlank(ls[i - 1]) then LeadingSpace(ls[i - 1])
    else PrevIndent(ls, i - 1)
  }

  /** `best_indents[i]`: line 0 keeps its indent; a later line may be at most four
      columns deeper than the nearest non-blank line above it. */
  function Best(ls: seq<string>, i: nat): (b: nat)
    requires i < |ls|
    ensures b <= LeadingSpace(ls[i])
    ensures 0 < i ==> b <= PrevIndent(ls, i) + 4
    ensures b == LeadingSpace(ls[i]) || b == PrevIndent(ls, i) + 4
  {
    if i == 0 then LeadingSpace(ls[0]) else Min(LeadingSpace(ls[i]), PrevIndent(ls, i) + 4)
  }

  /** `overindent = indent - best_indent` */
  function Over(ls: seq<string>, i: nat): int
    requires i < |ls|
  {
    LeadingSpace(ls[i]) - Best(ls, i)
  }

  /** The inner loop started at `i` gets as far as `j`: every line from `i` to `j`
      is indented deeper than `best_indents[i]`. */
  predicate Reaches(ls: seq<string>, i: nat, j: nat)
    requires i <= j < |ls|
    decreases j - i
  {
    LeadingSpace(ls[j]) > Best(ls, i) && (j == i || Reaches(ls, i, j - 1))
  }

  /** What the pass for line `i` adds to `deindents[j]`. */
  function Contribution(ls: seq<string>, i: nat, j: nat): nat
    requires i < |ls| && j < |ls|
  {
    if Over(ls, i) > 0 && i <= j && Reaches(ls, i, j) then Min(Over(ls, i), LeadingSpace(ls[j]) - Best(ls, i))
    else 0
  }

  /** `deindents[j]` after the passes for lines `0 .. n-1`. */
  function Accumulated(ls: seq<string>, n: nat, j: nat): nat
    requires n <= |ls| && j < |ls|
  {
    if n == 0 then 0 else Accumulated(ls, n - 1, j) + Contribution(ls, n - 1, j)
  }

  /** The final `deindents[j]`. */
  function Total(ls: seq<string>, j: nat): nat
    requires j < |ls|
  {
    Accumulated(ls, |ls|, j)
  }

  /** `s[d:]` for `d >= 0`, clamped as Python clamps it. */
  function DropPrefix(s: string, d: nat): (r: string)
    ensures |r| <= |s| && r == s[|s| - |r|..]
  {
    if d >= |s| then [] else s[d..]
  }

  /** `remove_excessive_indent` as written: every line loses its whole accumulated
      de-indent, even when that is more than its indentation. */
  function DeindentedAsWritten(ls: seq<string>): seq<string> {
    if |ls| < 2 then ls else seq(|ls|, j requires 0 <= j < |ls| => DropPrefix(ls[j], Total(ls, j)))
  }

  /** `remove_excessive_indent` with the cut limited to the line's own indentation,
      so that only whitespace is ever removed. */
  function Deindented(ls: seq<string>): seq<string> {
    if |ls| < 2 then ls else seq(|ls|, j requires 0 <= j < |ls| => DropPrefix(ls[j], Min(Total(ls, j), LeadingSpace(ls[j]))))
  }

  // ---------------------------------------------------------------------------
  // Properties
  // ---------------------------------------------------------------------------

  /** Only passes for lines at or above `j` reach line `j`. */
  lemma {:induction false} AccumulatedUpTo(ls: seq<string>, n: nat, j: nat)
    requires j < n <= |ls|
    ensures Accumulated(ls, n, j) == Accumulated(ls, j + 1, j)
    decreases n
  {
    if n > j + 1 {
      AccumulatedUpTo(ls, n - 1, j);
    }
  }

  /** Line 0 is never cut. */
  lemma TotalFirst(ls: seq<string>)
    requires |ls| > 0
    ensures Total(ls, 0) == 0
  {
    AccumulatedUpTo(ls, |ls|, 0);
  }

  /** Without an over-indented line nothing is cut anywhere. */
  lemma {:induction false} AccumulatedNone(ls: seq<string>, n: nat, j: nat)
    requires n <= |ls| && j < |ls|
    requires forall i :: 0 < i < |ls| ==> LeadingSpace(ls[i]) <= PrevIndent(ls, i) + 4
    ensures Accumulated(ls, n, j) == 0
  {
    if n > 0 {
      AccumulatedNone(ls, n - 1, j);
      assert Over(ls, n - 1) == 0;
    }
  }

  /** The line count is kept, every line keeps a suffix of itself, and line 0 is
      kept whole. */
  lemma DeindentedAsWrittenShape(ls: seq<string>)
    ensures |DeindentedAsWritten(ls)| == |ls|
    ensures forall j :: 0 <= j < |ls| ==> IsSuffix(DeindentedAsWritten(ls)[j], ls[j])
    ensures |ls| > 0 ==> DeindentedAsWritten(ls)[0] == ls[0]
  {
    if |ls| >= 2 {
      TotalFirst(ls);
    }
  }

  predicate IsSuffix(r: string, s: string) {
    |r| <= |s| && r == s[|s| - |r|..]
  }

  /** When no line is more than four columns deeper than the nearest non-blank line
      above it, the pass changes nothing. */
  lemma DeindentedAsWrittenNoChange(ls: seq<string>)
    requires forall i :: 0 < i < |ls| ==> LeadingSpace(ls[i]) <= PrevIndent(ls, i) + 4
    ensures DeindentedAsWritten(ls) == ls
  {
    if |ls| >= 2 {
      forall j | 0 <= j < |ls| ensures Total(ls, j) == 0 {
        AccumulatedNone(ls, |ls|, j);
      }
    }
  }

  /** Three lines on which the pass as written deletes code: a non-blank line at
      indent 0, a line of nine spaces, and a line of nine spaces and `b`. Both lower
      lines are five columns too deep, and the cut for the first one is carried
      onto the second, so the second loses 5 + 5 = 10 characters, all of it. */
  function Example(): seq<string> {
    ["a", "         ", "         b"]
  }

  lemma ExampleIndents()
    ensures LeadingSpace(Example()[0]) == 0 && LeadingSpace(Example()[1]) == 9 && LeadingSpace(Example()[2]) == 9
    ensures IsBlank(Example()[1]) && !IsBlank(Example()[0]) && !IsBlank(Example()[2])
  {
    NineSpaces();
    NineSpacesThenB();
    assert !IsBlank("a") by {
      assert !IsSpace("a"[0]);
    }
  }

  lemma NineSpaces()
    ensures LeadingSpace("         ") == 9 && IsBlank("         ")
  {
    var s := "         ";
    assert forall k :: 0 <= k < 9 ==> s[k] == ' ';
    LeadingSpaceOf(s, 9);
  }

  lemma NineSpacesThenB()
    ensures LeadingSpace("         b") == 9 && !IsBlank("         b")
  {
    var s := "         b";
    assert forall k :: 0 <= k < 9 ==> s[k] == ' ';
    assert s[9] == 'b';
    LeadingSpaceOf(s, 9);
  }

  lemma ExampleTotal()
    ensures Total(Example(), 2) == 10
  {
    var ls := Example();
    ExampleIndents();
    assert Best(ls, 1) == 4 && Best(ls, 2) == 4;
    assert Contribution(ls, 0, 2) == 0;
    assert Contribution(ls, 1, 2) == 5;
    assert Contribution(ls, 2, 2) == 5;
    assert Accumulated(ls, 1, 2) == 0;
    assert Accumulated(ls, 2, 2) == 5;
  }

  lemma DeindentedAsWrittenDropsCode()
    ensures !IsBlank(Example()[2]) && DeindentedAsWritten(Example())[2] == []
  {
    ExampleIndents();
    ExampleTotal();
  }

  /** With the cut limited to the indentation, the same lines keep `b`. */
  lemma DeindentedKeepsCodeExample()
    ensures Deindented(Example())[2] == "b"
  {
    ExampleIndents();
    ExampleTotal();
  }

  /** Cutting at most the indentation keeps the text of the line. */
  lemma DropIndent(s: string, k: nat)
    requires k <= LeadingSpace(s)
    ensures LStrip(DropPrefix(s, k)) == LStrip(s)
    ensures RemoveSpace(DropPrefix(s, k)) == RemoveSpace(s)
  {
    var t := DropPrefix(s, k);
    assert t == s[k..];
    DropIndentLStrip(s, k, t);
    DropIndentText(s, k, t);
  }

  lemma DropIndentLStrip(s: string, k: nat, t: string)
    requires k <= LeadingSpace(s) && t == s[k..]
    ensures LStrip(t) == LStrip(s)
  {
    LeadingSpaceDrop(s, k);
    assert t[LeadingSpace(s) - k..] == s[LeadingSpace(s)..];
  }

  lemma DropIndentText(s: string, k: nat, t: string)
    requires k <= LeadingSpace(s) && t == s[k..]
    ensures RemoveSpace(t) == RemoveSpace(s)
  {
    LeadingSpaceSpec(s);
    assert IsBlank(s[..k]) by {
      assert forall i :: 0 <= i < k ==> s[..k][i] == s[..LeadingSpace(s)][i];
    }
    assert s == s[..k] + t;
    RemoveSpaceAppend(s[..k], t);
    RemoveSpaceBlank(s[..k]);
  }

  lemma {:induction false} LeadingSpaceDrop(s: string, k: nat)
    requires k <= LeadingSpace(s)
    ensures LeadingSpace(s[k..]) == LeadingSpace(s) - k
  {
    if k > 0 {
      LeadingSpaceDrop(s[1..], k - 1);
      assert s[1..][k - 1..] == s[k..];
    }
  }

  /** The corrected pass keeps the line count, line 0, and the text of every line:
      it removes indentation only. */
  lemma DeindentedKeepsText(ls: seq<string>)
    ensures |Deindented(ls)| == |ls|
    ensures forall j :: 0 <= j < |ls| ==> IsSuffix(Deindented(ls)[j], ls[j]) && LStrip(Deindented(ls)[j]) == LStrip(ls[j])
    ensures |ls| > 0 ==> Deindented(ls)[0] == ls[0]
    ensures Content(Deindented(ls)) == Content(ls)
  {
    var r := Deindented(ls);
    if |ls| >= 2 {
      TotalFirst(ls);
      forall j | 0 <= j < |ls| ensures LStrip(r[j]) == LStrip(ls[j]) && RemoveSpace(r[j]) == RemoveSpace(ls[j]) {
        DropIndent(ls[j], Min(Total(ls, j), LeadingSpace(ls[j])));
      }
      ContentPointwise(r, ls);
    }
  }

  /** Without an over-indented line the corrected pass changes nothing either. */
  lemma DeindentedNoChange(ls: seq<string>)
    requires forall i :: 0 < i < |ls| ==> LeadingSpace(ls[i]) <= PrevIndent(ls, i) + 4
    ensures Deindented(ls) == ls
  {
    if |ls| >= 2 {
      forall j | 0 <= j < |ls| ensures Total(ls, j) == 0 {
        AccumulatedNone(ls, |ls|, j);
      }
    }
  }

  // ---------------------------------------------------------------------------
  // The loops of `remove_excessive_indent`
  // ---------------------------------------------------------------------------

  /** Once a line stops the inner loop started at `i`, no later line is reached. */
  lemma {:induction false} ReachesStops(ls: seq<string>, i: nat, j: nat, k: nat)
    requires i <= j <= k < |ls| && !Reaches(ls, i, j)
    ensures !Reaches(ls, i, k)
    decreases k - j
  {
    if k > j {
      ReachesStops(ls, i, j, k - 1);
    }
  }

  /** The backward search for `previous_indent`, stopping at the first non-blank
      line above line `i`. */
  method PreviousIndent(ls: seq<string>, indents: seq<nat>, i: nat) returns (p: nat)
    requires 0 < i < |ls| && |indents| == |ls|
    requires forall k :: 0 <= k < |ls| ==> indents[k] == LeadingSpace(ls[k])
    ensures p == PrevIndent(ls, i)
  {
    p := 0;
    var j: int := i - 1;
    while j >= 0
      invariant -1 <= j < i
      invariant PrevIndent(ls, i) == PrevIndent(ls, j + 1)
    {
      if !IsBlank(ls[j]) {
        p := indents[j];
        return;
      }
      j := j - 1;
    }
  }

  /** `best_indents`, built by appending one entry per line. */
  method BestIndents(ls: seq<string>, indents: seq<nat>) returns (best: seq<nat>)
    requires |ls| >= 1 && |indents| == |ls|
    requires forall k :: 0 <= k < |ls| ==> indents[k] == LeadingSpace(ls[k])
    ensures |best| == |ls| && forall k :: 0 <= k < |ls| ==> best[k] == Best(ls, k)
  {
    best := [indents[0]];
    var i := 1;
    while i < |ls|
      invariant 1 <= i <= |ls|
      invariant |best| == i && forall k :: 0 <= k < i ==> best[k] == Best(ls, k)
    {
      var previous := PreviousIndent(ls, indents, i);
      best := best + [Min(indents[i], previous + 4)];
      i := i + 1;
    }
  }

  /** The inner loop for line `i`: add the cut to every line from `i` on until one
      is no deeper than `best_indents[i]`. */
  method Propagate(ls: seq<string>, indents: seq<nat>, best: seq<nat>, deindents: array<nat>, i: nat)
    requires i < |ls| && |indents| == |ls| && |best| == |ls| && deindents.Length == |ls|
    requires forall k :: 0 <= k < |ls| ==> indents[k] == LeadingSpace(ls[k])
    requires forall k :: 0 <= k < |ls| ==> best[k] == Best(ls, k)
    requires forall t :: 0 <= t < |ls| ==> deindents[t] == Accumulated(ls, i, t)
    modifies deindents
    ensures forall t :: 0 <= t < |ls| ==> deindents[t] == Accumulated(ls, i + 1, t)
  {
    var overindent := indents[i] - best[i];
    if overindent > 0 {
      var j := i;
      while j < |ls|
        invariant i <= j <= |ls|
        invariant forall t :: i <= t < j ==> Reaches(ls, i, t)
        invariant forall t :: 0 <= t < |ls| ==> deindents[t] == Accumulated(ls, i, t) + (if i <= t < j then Contribution(ls, i, t) else 0)
      {
        if indents[j] <= best[i] {
          forall t | j <= t < |ls| ensures Contribution(ls, i, t) == 0 {
            ReachesStops(ls, i, j, t);
          }
          break;
        }
        assert Reaches(ls, i, j) by {
          if j > i {
            assert Reaches(ls, i, j - 1);
          }
        }
        deindents[j] := deindents[j] + Min(overindent, indents[j] - best[i]);
        j := j + 1;
      }
    }
  }

  /** `deindents`: the sum, over every line, of what its inner loop adds. */
  method Deindents(ls: seq<string>, indents: seq<nat>, best: seq<nat>) returns (deindents: array<nat>)
    requires |indents| == |ls| && |best| == |ls|
    requires forall k :: 0 <= k < |ls| ==> indents[k] == LeadingSpace(ls[k])
    requires forall k :: 0 <= k < |ls| ==> best[k] == Best(ls, k)
    ensures deindents.Length == |ls| && forall t :: 0 <= t < |ls| ==> deindents[t] == Total(ls, t)
  {
    deindents := new nat[|ls|](_ => 0);
    var i := 0;
    while i < |ls|
      invariant 0 <= i <= |ls|
      invariant forall t :: 0 <= t < |ls| ==> deindents[t] == Accumulated(ls, i, t)
    {
      Propagate(ls, indents, best, deindents, i);
      i := i + 1;
    }
  }

  /** `indents`, `best_indents` and `deindents`, computed as the source computes them. */
  method Plan(ls: seq<string>) returns (indents: seq<nat>, deindents: array<nat>)
    requires |ls| >= 1
    ensures |indents| == |ls| && forall k :: 0 <= k < |ls| ==> indents[k] == LeadingSpace(ls[k])
    ensures deindents.Length == |ls|
    ensures forall t :: 0 <= t < |ls| ==> deindents[t] == Total(ls, t)
  {
    indents := seq(|ls|, k requires 0 <= k < |ls| => LeadingSpace(ls[k]));
    var best := BestIndents(ls, indents);
    deindents := Deindents(ls, indents, best);
  }

  /** Lines each cut by its final `deindents` entry are the result of the pass. */
  lemma AsWrittenOf(ls: seq<string>, cuts: seq<nat>, r: seq<string>)
    requires |ls| >= 2 && |cuts| == |ls| && |r| == |ls|
    requires forall t :: 0 <= t < |ls| ==> cuts[t] == Total(ls, t)
    requires forall t :: 0 <= t < |ls| ==> r[t] == DropPrefix(ls[t], cuts[t])
    ensures r == DeindentedAsWritten(ls)
  {
  }

  /** Lines each cut by at most their indentation are the result of the corrected pass. */
  lemma CappedOf(ls: seq<string>, cuts: seq<nat>, r: seq<string>)
    requires |ls| >= 2 && |cuts| == |ls| && |r| == |ls|
    requires forall t :: 0 <= t < |ls| ==> cuts[t] == Min(Total(ls, t), LeadingSpace(ls[t]))
    requires forall t :: 0 <= t < |ls| ==> r[t] == DropPrefix(ls[t], cuts[t])
    ensures r == Deindented(ls)
  {
  }
}
