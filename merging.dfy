/** Run merging (`_merge_lines`), the closer and opener merge passes, and the
    opener fusion of `collapse_lparen_lines`, as functions on line lists. */
module Merging {
  import opened Text
  import opened Grouping

  // ---------------------------------------------------------------------------
  // The merged line
  // ---------------------------------------------------------------------------

  predicate AllBlank(rows: seq<string>) {
    forall k :: 0 <= k < |rows| ==> IsBlank(rows[k])
  }

  /** `min((indent of line for line in rows if line.strip()), default=0)` */
  function MinIndent(rows: seq<string>): nat {
    if rows == [] then 0
    else if IsBlank(rows[0]) then MinIndent(rows[1..])
    else if AllBlank(rows[1..]) then LeadingSpace(rows[0])
    else Min(LeadingSpace(rows[0]), MinIndent(rows[1..]))
  }

  /** The minimum is a lower bound on, and one of, the non-blank indentations,
      and 0 when every row is blank. */
  lemma {:induction false} MinIndentSpec(rows: seq<string>)
    ensures AllBlank(rows) ==> MinIndent(rows) == 0
    ensures forall i :: 0 <= i < |rows| && !IsBlank(rows[i]) ==> MinIndent(rows) <= LeadingSpace(rows[i])
    ensures !AllBlank(rows) ==> exists i :: 0 <= i < |rows| && !IsBlank(rows[i]) && MinIndent(rows) == LeadingSpace(rows[i])
  {
    if rows != [] {
      MinIndentSpec(rows[1..]);
      assert forall i :: 1 <= i < |rows| ==> rows[i] == rows[1..][i - 1];
    }
  }

  /** The line `_merge_lines` builds from the lines of one group: as many copies of
      the first line's first character as the smallest indentation of a non-blank
      member, then every member with its whitespace removed, concatenated. */
  function MergedLine(rows: seq<string>): string
    requires |rows| > 0 && |rows[0]| > 0
  {
    Repeat(rows[0][0], MinIndent(rows)) + RemoveSpace(Concat(rows))
  }

  /** The fill character is whitespace whenever it is used. */
  lemma IndentCharIsSpace(rows: seq<string>)
    requires |rows| > 0 && |rows[0]| > 0 && MinIndent(rows) > 0
    ensures IsSpace(rows[0][0])
  {
    if !IsBlank(rows[0]) {
      MinIndentSpec(rows);
      assert MinIndent(rows) <= LeadingSpace(rows[0]);
    }
  }

  /** The indentation `_merge_lines` puts in front is whitespace. */
  lemma FillIsBlank(rows: seq<string>)
    requires |rows| > 0 && |rows[0]| > 0
    ensures IsBlank(Repeat(rows[0][0], MinIndent(rows)))
  {
    if MinIndent(rows) > 0 {
      IndentCharIsSpace(rows);
    }
    RepeatBlank(rows[0][0], MinIndent(rows));
  }

  lemma {:induction false} ConcatNotBlank(rows: seq<string>)
    requires !AllBlank(rows)
    ensures RemoveSpace(Concat(rows)) != []
  {
    if IsBlank(rows[0]) {
      ConcatNotBlank(rows[1..]);
    } else {
      RemoveSpaceBlank(rows[0]);
    }
    RemoveSpaceAppend(rows[0], Concat(rows[1..]));
  }

  /** Merging keeps every non-whitespace character, in order. */
  lemma MergedLineContent(rows: seq<string>)
    requires |rows| > 0 && |rows[0]| > 0
    ensures RemoveSpace(MergedLine(rows)) == RemoveSpace(Concat(rows))
  {
    var k := MinIndent(rows);
    var fill := Repeat(rows[0][0], k);
    FillIsBlank(rows);
    RemoveSpaceBlank(fill);
    RemoveSpaceAppend(fill, RemoveSpace(Concat(rows)));
    RemoveSpaceLeavesNone(Concat(rows));
    RemoveSpaceNoSpace(RemoveSpace(Concat(rows)));
  }

  /** The merged line is indented exactly as much as its least indented non-blank member. */
  lemma MergedLineIndent(rows: seq<string>)
    requires |rows| > 0 && |rows[0]| > 0 && !AllBlank(rows)
    ensures LeadingSpace(MergedLine(rows)) == MinIndent(rows)
  {
    var k := MinIndent(rows);
    var body := RemoveSpace(Concat(rows));
    ConcatNotBlank(rows);
    RemoveSpaceLeavesNone(Concat(rows));
    FillIsBlank(rows);
    LeadingSpaceAfterFill(Repeat(rows[0][0], k), body);
  }

  lemma {:induction false} LeadingSpaceAfterFill(fill: string, body: string)
    requires IsBlank(fill) && body != [] && !IsSpace(body[0])
    ensures LeadingSpace(fill + body) == |fill|
  {
    if fill != [] {
      assert (fill + body)[1..] == fill[1..] + body;
      LeadingSpaceAfterFill(fill[1..], body);
    } else {
      assert fill + body == body;
    }
  }

  /** Merging lines that all match a pattern gives a line that matches it too. */
  lemma MergedLineMatches(rows: seq<string>, b: Bracket)
    requires |rows| > 0 && forall k :: 0 <= k < |rows| ==> Matches(rows[k], b)
    ensures |rows[0]| > 0 && Matches(MergedLine(rows), b)
  {
    assert !IsBlank(rows[0]);
    var k := MinIndent(rows);
    var fill := Repeat(rows[0][0], k);
    var body := RemoveSpace(Concat(rows));
    FillIsBlank(rows);
    ConcatNotBlank(rows);
    RemoveSpaceLeavesNone(Concat(rows));
    assert (fill + body)[|fill|] == body[0];
    AllMatchConcat(rows, b);
    BodyOrSpaceOfRemoveSpace(Concat(rows), b);
    AllBodyOrSpaceAppend(fill, body, b);
  }

  lemma {:induction false} AllMatchConcat(rows: seq<string>, b: Bracket)
    requires forall k :: 0 <= k < |rows| ==> Matches(rows[k], b)
    ensures AllBodyOrSpace(Concat(rows), b)
  {
    if rows != [] {
      AllMatchConcat(rows[1..], b);
      AllBodyOrSpaceAppend(rows[0], Concat(rows[1..]), b);
    }
  }

  lemma AllBodyOrSpaceAppend(x: string, y: string, b: Bracket)
    requires (IsBlank(x) || AllBodyOrSpace(x, b)) && AllBodyOrSpace(y, b)
    ensures AllBodyOrSpace(x + y, b)
  {
    forall i | 0 <= i < |x + y| ensures IsSpace((x + y)[i]) || IsBody(b, (x + y)[i]) {
      if i >= |x| {
        assert (x + y)[i] == y[i - |x|];
      }
    }
  }

  lemma {:induction false} BodyOrSpaceOfRemoveSpace(s: string, b: Bracket)
    requires AllBodyOrSpace(s, b)
    ensures AllBodyOrSpace(RemoveSpace(s), b)
  {
    if s != [] {
      assert AllBodyOrSpace(s[1..], b) by {
        forall i | 0 <= i < |s| - 1 ensures IsSpace(s[1..][i]) || IsBody(b, s[1..][i]) {
          assert s[1..][i] == s[i + 1];
        }
      }
      BodyOrSpaceOfRemoveSpace(s[1..], b);
      var head := if IsSpace(s[0]) then [] else [s[0]];
      AllBodyOrSpaceAppend(head, RemoveSpace(s[1..]), b);
    }
  }

  // ---------------------------------------------------------------------------
  // Removing the members of a group and inserting the merged line
  // ---------------------------------------------------------------------------

  /** The lines of `ls` whose index (counted from `base`) is not in `drop`, in order. */
  function Kept(ls: seq<string>, drop: seq<int>, base: int): (r: seq<string>)
    ensures |r| <= |ls|
  {
    if ls == [] then [] else (if base in drop then [] else [ls[0]]) + Kept(ls[1..], drop, base + 1)
  }

  lemma {:induction false} KeptAppend(a: seq<string>, c: seq<string>, drop: seq<int>, base: int)
    ensures Kept(a + c, drop, base) == Kept(a, drop, base) + Kept(c, drop, base + |a|)
  {
    if a == [] {
      assert a + c == c;
    } else {
      var ac := a + c;
      assert ac[0] == a[0] && ac[1..] == a[1..] + c;
      KeptAppend(a[1..], c, drop, base + 1);
      assert base + 1 + |a[1..]| == base + |a|;
      KeptCons(ac, drop, base);
      KeptCons(a, drop, base);
      var h, k1, k2 := (if base in drop then [] else [a[0]]), Kept(a[1..], drop, base + 1), Kept(c, drop, base + |a|);
      assert Kept(ac, drop, base) == h + (k1 + k2);
      AppendAssoc(h, k1, k2);
    }
  }

  lemma KeptCons(ls: seq<string>, drop: seq<int>, base: int)
    requires ls != []
    ensures Kept(ls, drop, base) == (if base in drop then [] else [ls[0]]) + Kept(ls[1..], drop, base + 1)
  {
  }

  lemma {:induction false} KeptSplit(ls: seq<string>, i: nat, drop: seq<int>, base: int, mid: int)
    requires i <= |ls| && mid == base + i
    ensures Kept(ls, drop, base) == Kept(ls[..i], drop, base) + Kept(ls[i..], drop, mid)
  {
    assert ls == ls[..i] + ls[i..];
    KeptAppend(ls[..i], ls[i..], drop, base);
  }

  /** Nothing in range is dropped: everything is kept. */
  lemma {:induction false} KeptNone(a: seq<string>, drop: seq<int>, base: int)
    requires forall i :: base <= i < base + |a| ==> i !in drop
    ensures Kept(a, drop, base) == a
  {
    if a != [] {
      KeptNone(a[1..], drop, base + 1);
    }
  }

  /** Everything in range is dropped. */
  lemma {:induction false} KeptAll(a: seq<string>, drop: seq<int>, base: int)
    requires forall i :: base <= i < base + |a| ==> i in drop
    ensures Kept(a, drop, base) == []
  {
    if a != [] {
      KeptAll(a[1..], drop, base + 1);
    }
  }

  /** Two drop sets that agree on the range keep the same lines. */
  lemma {:induction false} KeptAgree(a: seq<string>, d1: seq<int>, d2: seq<int>, base: int)
    requires forall i :: base <= i < base + |a| ==> (i in d1 <==> i in d2)
    ensures Kept(a, d1, base) == Kept(a, d2, base)
  {
    if a != [] {
      KeptAgree(a[1..], d1, d2, base + 1);
    }
  }

  /** Popping index `i`, below every index already dropped, drops it as well. */
  lemma PopKept(ls: seq<string>, drop: seq<int>, i: int)
    requires 0 <= i < |ls| && forall j :: j in drop ==> j > i
    ensures |Kept(ls, drop, 0)| > i
    ensures Kept(ls, [i] + drop, 0) == Kept(ls, drop, 0)[..i] + Kept(ls, drop, 0)[i + 1..]
  {
    KeptBeforeDrop(ls, drop, i);
    KeptDroppingFirst(ls, drop, i);
    DropAt(ls[..i], [ls[i]], Kept(ls[i + 1..], drop, i + 1));
  }

  /** Below every dropped index the list is kept as it is. */
  lemma KeptBeforeDrop(ls: seq<string>, drop: seq<int>, i: int)
    requires 0 <= i < |ls| && forall j :: j in drop ==> j > i
    ensures Kept(ls, drop, 0) == ls[..i] + [ls[i]] + Kept(ls[i + 1..], drop, i + 1)
  {
    KeptAround(ls, drop, i);
    KeptNone(ls[..i], drop, 0);
    KeptOne(ls[i], drop, i);
  }

  /** Dropping `i` as well removes exactly line `i` from that. */
  lemma KeptDroppingFirst(ls: seq<string>, drop: seq<int>, i: int)
    requires 0 <= i < |ls| && forall j :: j in drop ==> j > i
    ensures Kept(ls, [i] + drop, 0) == ls[..i] + Kept(ls[i + 1..], drop, i + 1)
  {
    var d := [i] + drop;
    assert forall j :: j in d ==> j >= i;
    KeptAround(ls, d, i);
    KeptNoneBelow(ls[..i], d, 0);
    assert i in d;
    KeptOne(ls[i], d, i);
    KeptConsBelow(ls[i + 1..], drop, i, i + 1);
    var front, back := ls[..i], Kept(ls[i + 1..], drop, i + 1);
    assert Kept(ls, d, 0) == front + [] + back;
    AppendNil(front, back);
  }

  lemma KeptNoneBelow(a: seq<string>, drop: seq<int>, base: int)
    requires forall j :: j in drop ==> j >= base + |a|
    ensures Kept(a, drop, base) == a
  {
    KeptNone(a, drop, base);
  }

  lemma KeptConsBelow(a: seq<string>, drop: seq<int>, x: int, base: int)
    requires x < base
    ensures Kept(a, [x] + drop, base) == Kept(a, drop, base)
  {
    KeptAgree(a, drop, [x] + drop, base);
  }

  /** The kept lines are those kept before `i`, at `i`, and after `i`. */
  lemma KeptAround(ls: seq<string>, drop: seq<int>, i: nat)
    requires i < |ls|
    ensures Kept(ls, drop, 0) == Kept(ls[..i], drop, 0) + Kept([ls[i]], drop, i) + Kept(ls[i + 1..], drop, i + 1)
  {
    KeptSplit(ls, i, drop, 0, i);
    KeptSplit(ls[i..], 1, drop, i, i + 1);
    assert ls[i..][..1] == [ls[i]];
    assert ls[i..][1..] == ls[i + 1..];
  }

  lemma KeptOne(x: string, drop: seq<int>, base: int)
    ensures Kept([x], drop, base) == if base in drop then [] else [x]
  {
    assert [x][1..] == [];
  }

  lemma DropAt(x: seq<string>, m: seq<string>, p: seq<string>)
    requires |m| == 1
    ensures |x + m + p| > |x| && (x + m + p)[..|x|] + (x + m + p)[|x| + 1..] == x + p
  {
    assert (x + m + p)[..|x|] == x;
    assert (x + m + p)[|x| + 1..] == p;
  }

  /** A group `_merge_lines` accepts: non-empty, strictly ascending indices of the
      list (as `sorted` makes them), and a first member with a first character. */
  predicate ValidGroup(ls: seq<string>, g: seq<int>) {
    |g| >= 1 && 0 <= g[0] && g[|g| - 1] < |ls|
    && (forall k, l :: 0 <= k < l < |g| ==> g[k] < g[l])
    && |ls[g[0]]| > 0
  }

  /** `[lines[i] for i in group]` */
  function Pick(ls: seq<string>, g: seq<int>): (r: seq<string>)
    requires forall k :: 0 <= k < |g| ==> 0 <= g[k] < |ls|
    ensures |r| == |g| && forall k :: 0 <= k < |g| ==> r[k] == ls[g[k]]
  {
    seq(|g|, k requires 0 <= k < |g| => ls[g[k]])
  }

  /** The members of a group below its smallest index are all kept. */
  lemma {:induction false} KeptBelowGroup(ls: seq<string>, g: seq<int>)
    requires ValidGroup(ls, g)
    ensures |Kept(ls, g, 0)| >= g[0]
    ensures Kept(ls, g, 0)[..g[0]] == ls[..g[0]]
  {
    var drop := g;
    assert ls == ls[..g[0]] + ls[g[0]..];
    KeptAppend(ls[..g[0]], ls[g[0]..], drop, 0);
    forall i | 0 <= i < g[0] ensures i !in drop {
      forall k | 0 <= k < |g| ensures g[k] != i {
        if k > 0 {
          assert g[0] < g[k];
        }
      }
    }
    KeptNone(ls[..g[0]], drop, 0);
  }

  /** The list after `_merge_lines(lines, group)`: the members removed and the
      merged line inserted at the smallest index. */
  function Merged(ls: seq<string>, g: seq<int>): seq<string>
    requires ValidGroup(ls, g)
  {
    var kept := Kept(ls, g, 0);
    KeptBelowGroup(ls, g);
    kept[..g[0]] + [MergedLine(Pick(ls, g))] + kept[g[0]..]
  }

  /** Removing a run of consecutive indices keeps what is before and after it. */
  lemma {:induction false} KeptRun(ls: seq<string>, a: nat, n: nat)
    requires a + n <= |ls|
    ensures Kept(ls, Range(a, n), 0) == ls[..a] + ls[a + n..]
  {
    KeptSplit(ls, a + n, Range(a, n), 0, a + n);
    KeptRunFront(ls, a, n);
    KeptOutsideRange(ls[a + n..], a, n, a + n);
  }

  lemma {:induction false} KeptRunFront(ls: seq<string>, a: nat, n: nat)
    requires a + n <= |ls|
    ensures Kept(ls[..a + n], Range(a, n), 0) == ls[..a]
  {
    KeptSplit(ls[..a + n], a, Range(a, n), 0, a);
    assert ls[..a + n][..a] == ls[..a] && ls[..a + n][a..] == ls[a..a + n];
    KeptOutsideRange(ls[..a], a, n, 0);
    KeptInsideRange(ls[a..a + n], a, n);
  }

  lemma {:induction false} KeptOutsideRange(part: seq<string>, a: nat, n: nat, base: int)
    requires base + |part| <= a || a + n <= base
    ensures Kept(part, Range(a, n), base) == part
  {
    forall i | base <= i < base + |part| ensures i !in Range(a, n) {
      NotInRange(a, n, i);
    }
    KeptNone(part, Range(a, n), base);
  }

  lemma {:induction false} KeptInsideRange(part: seq<string>, a: nat, n: nat)
    requires |part| == n
    ensures Kept(part, Range(a, n), a) == []
  {
    forall i | a <= i < a + |part| ensures i in Range(a, n) {
      assert Range(a, n)[i - a] == i;
    }
    KeptAll(part, Range(a, n), a);
  }

  lemma NotInRange(a: int, n: nat, i: int)
    requires i < a || a + n <= i
    ensures i !in Range(a, n)
  {
  }

  lemma {:induction false} MergedRun(ls: seq<string>, a: nat, n: nat)
    requires n >= 1 && a + n <= |ls| && |ls[a]| > 0
    ensures ValidGroup(ls, Range(a, n))
    ensures Merged(ls, Range(a, n)) == ls[..a] + [MergedLine(ls[a..a + n])] + ls[a + n..]
    ensures |Merged(ls, Range(a, n))| == |ls| - n + 1
  {
    KeptRun(ls, a, n);
    assert Pick(ls, Range(a, n)) == ls[a..a + n];
  }

  // ---------------------------------------------------------------------------
  // The merge passes
  // ---------------------------------------------------------------------------

  /** Every group is a run of consecutive indices of `ls` starting at a non-empty
      line, and the groups are ordered. */
  predicate RunList(ls: seq<string>, gs: seq<seq<int>>)
    decreases |gs|
  {
    gs == [] ||
    (RangeIn(ls, gs[0])
     && (|gs| > 1 ==> RangeIn(ls, gs[1]) && gs[0][0] + |gs[0]| < gs[1][0])
     && RunList(ls, gs[1..]))
  }

  /** `g` is the run of indices `g[0], g[0]+1, ...` of `ls`, starting at a
      non-empty line. */
  predicate RangeIn(ls: seq<string>, g: seq<int>) {
    |g| >= 1 && 0 <= g[0] && g[0] + |g| <= |ls|
    && g == Range(g[0], |g|) && |ls[g[0]]| > 0
  }

  /** Ordered runs form a run list. */
  lemma {:induction false} RunListOf(ls: seq<string>, gs: seq<seq<int>>)
    requires Ordered(gs) && forall k :: 0 <= k < |gs| ==> RangeIn(ls, gs[k])
    ensures RunList(ls, gs)
  {
    if gs != [] {
      var tl := gs[1..];
      forall k, l | 0 <= k < l < |tl| && tl[k] != [] && tl[l] != []
        ensures tl[k][0] + |tl[k]| < tl[l][0]
      {
        assert tl[k] == gs[k + 1] && tl[l] == gs[l + 1];
      }
      forall k | 0 <= k < |tl| ensures RangeIn(ls, tl[k]) {
        assert tl[k] == gs[k + 1];
      }
      RunListOf(ls, tl);
      assert RangeIn(ls, gs[0]);
      if |gs| > 1 {
        assert RangeIn(ls, gs[1]);
      }
    }
  }

  lemma {:induction false} PrefixOfPrefix(x: seq<string>, y: seq<string>, c: nat, d: nat)
    requires d <= c <= |x| && c <= |y| && x[..c] == y[..c]
    ensures x[..d] == y[..d]
  {
    assert x[..d] == x[..c][..d];
    assert y[..d] == y[..c][..d];
  }

  /** Where the first group of `gs` starts, or the end of the list. */
  function Bound(ls: seq<string>, gs: seq<seq<int>>): nat
    requires RunList(ls, gs)
  {
    if gs == [] then |ls| else gs[0][0]
  }

  /** Merging a group in a list whose head agrees with `ls` up to past the group
      keeps the head before the group. */
  lemma {:induction false} MergeStepPrefix(ls: seq<string>, rest: seq<string>, g: seq<int>, c: nat)
    requires RangeIn(ls, g) && g[0] + |g| <= c <= |rest| && c <= |ls| && rest[..c] == ls[..c]
    ensures ValidGroup(rest, g)
    ensures |Merged(rest, g)| > g[0] && Merged(rest, g)[..g[0]] == ls[..g[0]]
  {
    var a, n := g[0], |g|;
    assert rest[a] == ls[a] by {
      assert rest[..c][a] == ls[..c][a];
    }
    MergedRun(rest, a, n);
    PrefixOfPrefix(rest, ls, c, a);
  }

  /** `for group in reversed(gs): _merge_lines(lines, group)`: the last group is
      merged first, so earlier indices stay valid. */
  function MergeRuns(ls: seq<string>, gs: seq<seq<int>>): (r: seq<string>)
    requires RunList(ls, gs)
    ensures |r| >= Bound(ls, gs) && r[..Bound(ls, gs)] == ls[..Bound(ls, gs)]
    decreases |gs|
  {
    if gs == [] then ls
    else
      var rest := MergeRuns(ls, gs[1..]);
      MergeStepPrefix(ls, rest, gs[0], Bound(ls, gs[1..]));
      Merged(rest, gs[0])
  }

  /** Where the reference pass goes on after the lines it consumes at line `j`:
      past a whole run of two or more, or past the single line. */
  function Next(ls: seq<string>, b: Bracket, j: nat): (k: nat)
    requires j < |ls|
    ensures j < k <= |ls|
  {
    var n := RunLen(ls, b, j);
    if n >= 2 then j + n else j + 1
  }

  /** The line that the `n` lines starting at `j` merge into. */
  function RunLine(ls: seq<string>, j: nat, n: nat): string
    requires 1 <= n && j + n <= |ls| && |ls[j]| > 0
  {
    MergedLine(ls[j..j + n])
  }

  lemma RunLineIs(ls: seq<string>, j: nat, n: nat)
    requires 1 <= n && j + n <= |ls| && |ls[j]| > 0
    ensures RunLine(ls, j, n) == MergedLine(ls[j..j + n])
  {
  }

  /** The output line the reference pass produces for the lines it consumes at `j`. */
  function Head(ls: seq<string>, b: Bracket, j: nat): string
    requires j < |ls|
  {
    var n := RunLen(ls, b, j);
    if n >= 2 then
      MatchesNonEmpty(ls[j], b);
      RunLine(ls, j, n)
    else ls[j]
  }

  /** Reference definition of a merge pass, read from the top: every maximal run
      of at least two matching lines becomes its merged line, everything else
      is copied. */
  function Compress(ls: seq<string>, b: Bracket, j: nat): (r: seq<string>)
    requires j <= |ls|
    ensures |r| <= |ls| - j
    ensures j < |ls| ==> |r| > 0
    decreases |ls| - j
  {
    if j == |ls| then []
    else [Head(ls, b, j)] + Compress(ls, b, Next(ls, b, j))
  }

  lemma {:induction false} HeadRun(ls: seq<string>, b: Bracket, j: nat, n: nat)
    requires j < |ls| && n == RunLen(ls, b, j) && n >= 2
    ensures |ls[j]| > 0
    ensures Head(ls, b, j) == MergedLine(ls[j..j + n])
  {
    MatchesNonEmpty(ls[j], b);
    HeadAtRun(ls, b, j, n);
    RunLineIs(ls, j, n);
  }

  lemma HeadAtRun(ls: seq<string>, b: Bracket, j: nat, n: nat)
    requires j < |ls| && n == RunLen(ls, b, j) && n >= 2 && |ls[j]| > 0
    ensures Head(ls, b, j) == RunLine(ls, j, n)
  {
  }

  lemma NextRun(ls: seq<string>, b: Bracket, j: nat, n: nat)
    requires j < |ls| && n == RunLen(ls, b, j) && n >= 2
    ensures Next(ls, b, j) == j + n
  {
  }

  lemma {:induction false} HeadCopy(ls: seq<string>, b: Bracket, j: nat)
    requires j < |ls| && RunLen(ls, b, j) < 2
    ensures Head(ls, b, j) == ls[j] && Next(ls, b, j) == j + 1
  {
  }

  /** The line produced at `j` keeps the consumed lines' non-whitespace characters. */
  lemma {:induction false} HeadContent(ls: seq<string>, b: Bracket, j: nat)
    requires j < |ls|
    ensures RemoveSpace(Head(ls, b, j)) == Content(ls[j..Next(ls, b, j)])
  {
    if RunLen(ls, b, j) >= 2 {
      HeadContentRun(ls, b, j);
    } else {
      HeadCopy(ls, b, j);
      assert ls[j..j + 1] == [ls[j]];
      ContentSingle(ls[j]);
    }
  }

  lemma HeadContentRun(ls: seq<string>, b: Bracket, j: nat)
    requires j < |ls| && RunLen(ls, b, j) >= 2
    ensures RemoveSpace(Head(ls, b, j)) == Content(ls[j..Next(ls, b, j)])
  {
    var n := RunLen(ls, b, j);
    var rows := ls[j..j + n];
    HeadRun(ls, b, j, n);
    NextRun(ls, b, j, n);
    MergedLineContent(rows);
    assert RemoveSpace(Head(ls, b, j)) == Content(rows);
    assert ls[j..Next(ls, b, j)] == rows;
  }

  /** The lines of a run, taken as a slice, all match. */
  lemma RunRowsMatch(ls: seq<string>, b: Bracket, j: nat, n: nat, rows: seq<string>)
    requires j < |ls| && n == RunLen(ls, b, j) && rows == ls[j..j + n]
    ensures forall k :: 0 <= k < |rows| ==> Matches(rows[k], b)
  {
    forall k | 0 <= k < |rows| ensures Matches(rows[k], b) {
      assert rows[k] == ls[j + k];
      RunLenMatches(ls, b, j, j + k);
    }
  }

  /** The line produced at `j` matches exactly when line `j` does. */
  lemma {:induction false} HeadMatches(ls: seq<string>, b: Bracket, j: nat)
    requires j < |ls|
    ensures Matches(Head(ls, b, j), b) <==> Matches(ls[j], b)
  {
    if RunLen(ls, b, j) >= 2 {
      HeadMatchesRun(ls, b, j);
    } else {
      HeadCopy(ls, b, j);
    }
  }

  lemma HeadMatchesRun(ls: seq<string>, b: Bracket, j: nat)
    requires j < |ls| && RunLen(ls, b, j) >= 2
    ensures Matches(ls[j], b) && Matches(Head(ls, b, j), b)
  {
    var n := RunLen(ls, b, j);
    var rows := ls[j..j + n];
    RunRowsMatch(ls, b, j, n, rows);
    assert rows[0] == ls[j];
    MergedLineMatches(rows, b);
    HeadRun(ls, b, j, n);
  }

  /** The pass stops consuming at a line that cannot continue the current one. */
  lemma {:induction false} NextBoundary(ls: seq<string>, b: Bracket, j: nat)
    requires j < |ls|
    ensures Next(ls, b, j) == |ls| || !Matches(ls[j], b) || !Matches(ls[Next(ls, b, j)], b)
  {
  }

  /** The groups a merge pass works on form a run list. */
  lemma GroupsRunList(ls: seq<string>, b: Bracket, minSize: int)
    requires minSize >= 1
    ensures RunList(ls, Groups(ls, b, minSize))
  {
    GroupsWellFormed(ls, b, minSize);
    var gs := Groups(ls, b, minSize);
    forall k | 0 <= k < |gs| ensures RangeIn(ls, gs[k]) {
      assert gs[k] in gs;
      RunRangeIn(ls, b, gs[k]);
    }
    RunListOf(ls, gs);
  }

  lemma RunsFromRunList(ls: seq<string>, b: Bracket, j: nat, minSize: int)
    requires j <= |ls| && minSize >= 1
    requires j == 0 || j == |ls| || !Matches(ls[j - 1], b) || !Matches(ls[j], b)
    ensures RunList(ls, Filter(RunsFrom(ls, b, j), minSize))
  {
    RunsFromWellFormed(ls, b, j);
    FilterOrdered(RunsFrom(ls, b, j), minSize);
    var gs := Filter(RunsFrom(ls, b, j), minSize);
    forall k | 0 <= k < |gs| ensures RangeIn(ls, gs[k]) {
      assert gs[k] in gs;
      FilterMember(RunsFrom(ls, b, j), minSize, gs[k]);
      RunRangeIn(ls, b, gs[k]);
    }
    RunListOf(ls, gs);
  }

  lemma RunRangeIn(ls: seq<string>, b: Bracket, g: seq<int>)
    requires IsRun(ls, b, g)
    ensures g == Range(g[0], |g|) && |ls[g[0]]| > 0
  {
    MatchesNonEmpty(ls[g[0]], b);
  }

  /** The groups a merge pass sees from line `j` on. */
  function PassGroups(ls: seq<string>, b: Bracket, j: nat): seq<seq<int>>
    requires j <= |ls|
  {
    Filter(RunsFrom(ls, b, j), 2)
  }

  /** A line that is not the start of a run of two or more is copied. */
  lemma {:induction false} CopyStep(ls: seq<string>, b: Bracket, j: nat)
    requires j < |ls| && RunLen(ls, b, j) < 2
    ensures PassGroups(ls, b, j) == PassGroups(ls, b, j + 1)
    ensures Compress(ls, b, j) == [ls[j]] + Compress(ls, b, j + 1)
  {
    CopyGroups(ls, b, j);
    HeadCopy(ls, b, j);
    CompressCons(ls, b, j, j + 1);
  }

  lemma CopyGroups(ls: seq<string>, b: Bracket, j: nat)
    requires j < |ls| && RunLen(ls, b, j) < 2
    ensures PassGroups(ls, b, j) == PassGroups(ls, b, j + 1)
  {
    if Matches(ls[j], b) {
      RunsFromAtRun(ls, b, j);
      FilterPrepend(Range(j, 1), RunsFrom(ls, b, j + 1), 2);
    }
  }

  /** A run of two or more lines becomes one group... */
  lemma {:induction false} RunStep(ls: seq<string>, b: Bracket, j: nat, n: nat)
    requires j < |ls| && n == RunLen(ls, b, j) && n >= 2
    ensures PassGroups(ls, b, j) == [Range(j, n)] + PassGroups(ls, b, j + n)
  {
    RunsFromAtRun(ls, b, j);
    FilterPrepend(Range(j, n), RunsFrom(ls, b, j + n), 2);
  }

  /** ... and one merged line. */
  lemma {:induction false} RunCompress(ls: seq<string>, b: Bracket, j: nat, n: nat)
    requires j < |ls| && n == RunLen(ls, b, j) && n >= 2 && |ls[j]| > 0
    ensures Compress(ls, b, j) == [MergedLine(ls[j..j + n])] + Compress(ls, b, j + n)
  {
    NextRun(ls, b, j, n);
    CompressCons(ls, b, j, j + n);
    HeadRun(ls, b, j, n);
  }

  /** Merging a list of groups whose head is `g` merges the rest first, then `g`. */
  lemma {:induction false} MergeRunsCons(ls: seq<string>, g: seq<int>, rest: seq<seq<int>>)
    requires RunList(ls, [g] + rest)
    ensures RunList(ls, rest)
    ensures ValidGroup(MergeRuns(ls, rest), g)
    ensures MergeRuns(ls, [g] + rest) == Merged(MergeRuns(ls, rest), g)
  {
    var gs := [g] + rest;
    assert gs[1..] == rest && gs[0] == g;
    MergeStepPrefix(ls, MergeRuns(ls, rest), g, Bound(ls, rest));
  }

  lemma CopyJoin(ls: seq<string>, j: nat, c: seq<string>)
    requires j < |ls|
    ensures ls[..j + 1] + c == ls[..j] + ([ls[j]] + c)
  {
    assert ls[..j + 1] == ls[..j] + [ls[j]];
  }

  /** Merging a run that sits after an untouched prefix. */
  lemma {:induction false} MergedAfterPrefix(ls: seq<string>, x: seq<string>, c: seq<string>, j: nat, n: nat)
    requires n >= 1 && j + n <= |ls| && |ls[j]| > 0 && x == ls[..j + n] + c
    ensures ValidGroup(x, Range(j, n))
    ensures Merged(x, Range(j, n)) == ls[..j] + ([MergedLine(ls[j..j + n])] + c)
  {
    assert x[..j] == ls[..j] && x[j..j + n] == ls[j..j + n] && x[j + n..] == c;
    MergedRun(x, j, n);
  }

  /** A copied line extends the agreement of the two definitions by one line. */
  lemma {:induction false} CopyCase(ls: seq<string>, b: Bracket, j: nat)
    requires j < |ls| && RunLen(ls, b, j) < 2
    requires Agrees(ls, b, j + 1)
    ensures Agrees(ls, b, j)
  {
    CopyStep(ls, b, j);
    CopyJoin(ls, j, Compress(ls, b, j + 1));
  }

  /** A merged run extends the agreement of the two definitions past the run. */
  lemma {:induction false} RunCase(ls: seq<string>, b: Bracket, j: nat, n: nat)
    requires j < |ls| && n == RunLen(ls, b, j) && n >= 2
    requires j == 0 || !Matches(ls[j - 1], b) || !Matches(ls[j], b)
    requires Agrees(ls, b, j + n)
    ensures Agrees(ls, b, j)
  {
    RunStep(ls, b, j, n);
    RunsFromRunList(ls, b, j, 2);
    MatchesNonEmpty(ls[j], b);
    RunCompress(ls, b, j, n);
    RunCaseGlue(ls, j, n, PassGroups(ls, b, j + n), Compress(ls, b, j + n), PassGroups(ls, b, j), Compress(ls, b, j));
  }

  lemma RunCaseGlue(ls: seq<string>, j: nat, n: nat, rest: seq<seq<int>>, c: seq<string>, all: seq<seq<int>>, whole: seq<string>)
    requires n >= 1 && j + n <= |ls| && |ls[j]| > 0
    requires all == [Range(j, n)] + rest && RunList(ls, all)
    requires RunList(ls, rest) && MergeRuns(ls, rest) == ls[..j + n] + c
    requires whole == [MergedLine(ls[j..j + n])] + c
    ensures MergeRuns(ls, all) == ls[..j] + whole
  {
    MergeRunsCons(ls, Range(j, n), rest);
    MergedAfterPrefix(ls, MergeRuns(ls, rest), c, j, n);
  }

  /** Merging the runs of two or more lines found from `j` on, last first, leaves
      the lines before `j` and turns the rest into the reference pass from `j`. */
  predicate Agrees(ls: seq<string>, b: Bracket, j: nat)
    requires j <= |ls|
  {
    RunList(ls, PassGroups(ls, b, j))
    && MergeRuns(ls, PassGroups(ls, b, j)) == ls[..j] + Compress(ls, b, j)
  }

  /** The bottom-to-top merge loop of the source computes the reference definition. */
  lemma {:induction false} MergeRunsIsCompress(ls: seq<string>, b: Bracket, j: nat)
    requires j <= |ls|
    requires j == 0 || j == |ls| || !Matches(ls[j - 1], b) || !Matches(ls[j], b)
    ensures Agrees(ls, b, j)
    decreases |ls| - j
  {
    if j == |ls| {
      EndCase(ls, b);
    } else if RunLen(ls, b, j) < 2 {
      ShortRunBoundary(ls, b, j);
      MergeRunsIsCompress(ls, b, j + 1);
      CopyCase(ls, b, j);
    } else {
      var n := RunLen(ls, b, j);
      assert j + n == |ls| || !Matches(ls[j + n], b);
      MergeRunsIsCompress(ls, b, j + n);
      RunCase(ls, b, j, n);
    }
  }

  /** Past the last line there is nothing left to merge. */
  lemma EndCase(ls: seq<string>, b: Bracket)
    ensures Agrees(ls, b, |ls|)
  {
    assert RunsFrom(ls, b, |ls|) == [];
    assert PassGroups(ls, b, |ls|) == [];
    assert ls[..|ls|] + [] == ls;
  }

  /** A line that starts no run of two is followed by a boundary. */
  lemma ShortRunBoundary(ls: seq<string>, b: Bracket, j: nat)
    requires j < |ls| && RunLen(ls, b, j) < 2
    ensures j + 1 == |ls| || !Matches(ls[j], b) || !Matches(ls[j + 1], b)
  {
    if j + 1 < |ls| && Matches(ls[j], b) {
      assert RunLen(ls, b, j) == 1 + RunLen(ls, b, j + 1);
    }
  }

  /** A merge pass over the whole list: `collapse_rparen_lines` for closers, the
      first loop of `collapse_lparen_lines` for openers. */
  function MergePass(ls: seq<string>, b: Bracket): seq<string> {
    GroupsRunList(ls, b, 2);
    MergeRuns(ls, Groups(ls, b, 2))
  }

  lemma MergePassIsCompress(ls: seq<string>, b: Bracket)
    ensures MergePass(ls, b) == Compress(ls, b, 0)
  {
    MergeRunsIsCompress(ls, b, 0);
    FilterPrepend([], RunsFrom(ls, b, 0), 2);
    assert Groups(ls, b, 2) == PassGroups(ls, b, 0);
  }

  // ---------------------------------------------------------------------------
  // What a merge pass promises
  // ---------------------------------------------------------------------------

  lemma {:induction false} CompressCons(ls: seq<string>, b: Bracket, j: nat, k: nat)
    requires j < |ls| && k == Next(ls, b, j)
    ensures Compress(ls, b, j) == [Head(ls, b, j)] + Compress(ls, b, k)
  {
  }

  lemma {:induction false} ContentGlue(ls: seq<string>, j: nat, k: nat, h: string, c: seq<string>, rest: seq<string>)
    requires j <= k <= |ls| && c == [h] + rest
    requires RemoveSpace(h) == Content(ls[j..k])
    requires Content(rest) == Content(ls[k..])
    ensures Content(c) == Content(ls[j..])
  {
    ContentSlices(ls, j, k);
    ContentCons(h, rest);
  }

  lemma {:induction false} ContentStep(ls: seq<string>, b: Bracket, j: nat)
    requires j < |ls|
    requires Content(Compress(ls, b, Next(ls, b, j))) == Content(ls[Next(ls, b, j)..])
    ensures Content(Compress(ls, b, j)) == Content(ls[j..])
  {
    var k := Next(ls, b, j);
    var h := Head(ls, b, j);
    HeadContent(ls, b, j);
    CompressCons(ls, b, j, k);
    ContentGlue(ls, j, k, h, Compress(ls, b, j), Compress(ls, b, k));
  }

  /** A merge pass keeps every non-whitespace character, in order. */
  lemma {:induction false} CompressContent(ls: seq<string>, b: Bracket, j: nat)
    requires j <= |ls|
    ensures Content(Compress(ls, b, j)) == Content(ls[j..])
    decreases |ls| - j
  {
    if j < |ls| {
      CompressContent(ls, b, Next(ls, b, j));
      ContentStep(ls, b, j);
    } else {
      assert ls[j..] == [];
    }
  }

  /** No two neighbouring lines both match. */
  predicate NoAdjacentMatches(ls: seq<string>, b: Bracket) {
    forall k :: 0 <= k < |ls| - 1 ==> !(Matches(ls[k], b) && Matches(ls[k + 1], b))
  }

  lemma {:induction false} NoAdjacentCons(x: string, rest: seq<string>, b: Bracket)
    requires NoAdjacentMatches(rest, b)
    requires rest != [] ==> !(Matches(x, b) && Matches(rest[0], b))
    ensures NoAdjacentMatches([x] + rest, b)
  {
    var r := [x] + rest;
    forall k | 0 <= k < |r| - 1 ensures !(Matches(r[k], b) && Matches(r[k + 1], b)) {
      if k > 0 {
        assert r[k] == rest[k - 1] && r[k + 1] == rest[k];
      }
    }
  }

  /** The first line of a pass matches exactly when the first input line does. */
  lemma {:induction false} CompressHead(ls: seq<string>, b: Bracket, j: nat)
    requires j < |ls|
    ensures Matches(Compress(ls, b, j)[0], b) <==> Matches(ls[j], b)
  {
    HeadMatches(ls, b, j);
  }

  /** After a merge pass no two neighbouring lines match: every run has become one line. */
  lemma {:induction false} CompressNoAdjacent(ls: seq<string>, b: Bracket, j: nat)
    requires j <= |ls|
    ensures NoAdjacentMatches(Compress(ls, b, j), b)
    decreases |ls| - j
  {
    if j < |ls| {
      CompressNoAdjacent(ls, b, Next(ls, b, j));
      NoAdjacentStep(ls, b, j);
    }
  }

  lemma NoAdjacentStep(ls: seq<string>, b: Bracket, j: nat)
    requires j < |ls|
    requires NoAdjacentMatches(Compress(ls, b, Next(ls, b, j)), b)
    ensures NoAdjacentMatches(Compress(ls, b, j), b)
  {
    var k := Next(ls, b, j);
    var h := Head(ls, b, j);
    var rest := Compress(ls, b, k);
    CompressCons(ls, b, j, k);
    HeadMatches(ls, b, j);
    if k < |ls| {
      CompressHead(ls, b, k);
      NextBoundary(ls, b, j);
      NoAdjacentGlue(h, rest, ls[j], ls[k], b);
    } else {
      assert rest == [];
      NoAdjacentGlue(h, rest, ls[j], ls[j], b);
    }
  }

  lemma NoAdjacentGlue(h: string, rest: seq<string>, first: string, next: string, b: Bracket)
    requires NoAdjacentMatches(rest, b)
    requires Matches(h, b) <==> Matches(first, b)
    requires rest != [] ==> (Matches(rest[0], b) <==> Matches(next, b)) && !(Matches(first, b) && Matches(next, b))
    ensures NoAdjacentMatches([h] + rest, b)
  {
    NoAdjacentCons(h, rest, b);
  }

  /** A merge pass keeps every non-whitespace character, in order. */
  lemma MergePassContent(ls: seq<string>, b: Bracket)
    ensures Content(MergePass(ls, b)) == Content(ls)
  {
    MergePassIsCompress(ls, b);
    CompressContent(ls, b, 0);
    assert ls[0..] == ls;
  }

  /** After a merge pass no two neighbouring lines match the pattern. */
  lemma MergePassNoAdjacent(ls: seq<string>, b: Bracket)
    ensures NoAdjacentMatches(MergePass(ls, b), b)
  {
    MergePassIsCompress(ls, b);
    CompressNoAdjacent(ls, b, 0);
  }

  /** Where no two neighbouring lines match, the reference pass copies every line. */
  lemma {:induction false} CompressCopies(ls: seq<string>, b: Bracket, j: nat)
    requires j <= |ls| && NoAdjacentMatches(ls, b)
    ensures Compress(ls, b, j) == ls[j..]
    decreases |ls| - j
  {
    if j < |ls| {
      NoAdjacentRunLen(ls, b, j);
      HeadCopy(ls, b, j);
      CompressCons(ls, b, j, j + 1);
      CompressCopies(ls, b, j + 1);
      SliceCons(ls, j);
      CopyGlue(Compress(ls, b, j), Compress(ls, b, j + 1), ls[j..], ls[j + 1..], ls[j]);
    }
  }

  lemma CopyGlue(c: seq<string>, c1: seq<string>, t: seq<string>, t1: seq<string>, x: string)
    requires c == [x] + c1 && c1 == t1 && t == [x] + t1
    ensures c == t
  {
  }

  /** Where no two neighbouring lines match, no run is longer than one line. */
  lemma NoAdjacentRunLen(ls: seq<string>, b: Bracket, j: nat)
    requires j < |ls| && NoAdjacentMatches(ls, b)
    ensures RunLen(ls, b, j) < 2
  {
    if RunLen(ls, b, j) >= 2 {
      RunLenMatches(ls, b, j, j);
      RunLenMatches(ls, b, j, j + 1);
    }
  }

  /** A second merge pass with the same pattern changes nothing. */
  lemma MergePassIdempotent(ls: seq<string>, b: Bracket)
    ensures MergePass(MergePass(ls, b), b) == MergePass(ls, b)
  {
    var m := MergePass(ls, b);
    MergePassNoAdjacent(ls, b);
    MergePassIsCompress(m, b);
    CompressCopies(m, b, 0);
    assert m[0..] == m;
  }

  // ---------------------------------------------------------------------------
  // Opener fusion: the second loop of `collapse_lparen_lines`
  // ---------------------------------------------------------------------------

  /** `re.match(lparen_only_pattern, (" " + line.rstrip())[-1])` */
  predicate EndsWithOpener(line: string) {
    var r := RStrip(line);
    r != [] && IsBody(Opener, r[|r| - 1])
  }

  /** `re.match(lparen_only_pattern, (line.lstrip() + " ")[0])` */
  predicate StartsWithOpener(line: string) {
    var l := LStrip(line);
    l != [] && IsBody(Opener, l[0])
  }

  /** The test of the loop body for the group starting at `s`. */
  predicate Fuses(ls: seq<string>, s: nat)
    requires s < |ls|
  {
    s > 0 && EndsWithOpener(ls[s - 1]) && StartsWithOpener(ls[s])
  }

  /** One iteration: line `s` is appended, stripped, to the stripped line before it. */
  function FuseAt(ls: seq<string>, s: nat): seq<string>
    requires s < |ls|
  {
    if Fuses(ls, s) then ls[..s - 1] + [RStrip(ls[s - 1]) + LStrip(ls[s])] + ls[s + 1..] else ls
  }

  /** The lines before `s - 1` are untouched, and at most one line disappears. */
  lemma FuseAtFrame(ls: seq<string>, s: nat)
    requires s < |ls|
    ensures |ls| - 1 <= |FuseAt(ls, s)| <= |ls|
    ensures |FuseAt(ls, s)| >= s
    ensures FuseAt(ls, s)[..Before(s)] == ls[..Before(s)]
  {
    if Fuses(ls, s) {
      assert FuseAt(ls, s)[..s - 1] == ls[..s - 1];
    }
  }

  function Before(s: nat): nat {
    if s == 0 then 0 else s - 1
  }

  /** Fusing two lines keeps every non-whitespace character, in order. */
  lemma FuseAtContent(ls: seq<string>, s: nat)
    requires s < |ls|
    ensures Content(FuseAt(ls, s)) == Content(ls)
  {
    if Fuses(ls, s) {
      var a, x, y, c := ls[..s - 1], ls[s - 1], ls[s], ls[s + 1..];
      assert ls == a + [x, y] + c;
      ContentAround(a, [x, y], c);
      ContentAround(a, [RStrip(x) + LStrip(y)], c);
      ContentCons(x, [y]);
      ContentSingle(y);
      ContentSingle(RStrip(x) + LStrip(y));
      RemoveSpaceAppend(RStrip(x), LStrip(y));
      RemoveSpaceStrip(x);
      RemoveSpaceStrip(y);
    }
  }

  lemma ContentAround(a: seq<string>, m: seq<string>, c: seq<string>)
    ensures Content(a + m + c) == Content(a) + Content(m) + Content(c)
  {
    ContentAppend(a + m, c);
    ContentAppend(a, m);
  }

  /** Where the lines at and after the first group may have changed. */
  function FuseBound(ls: seq<string>, gs: seq<seq<int>>): nat
    requires RunList(ls, gs)
  {
    if gs == [] then |ls| else Before(gs[0][0])
  }

  /** `for start, *_ in reversed(groups): ...`: the groups are visited last first. */
  function FuseRuns(ls: seq<string>, gs: seq<seq<int>>): (r: seq<string>)
    requires RunList(ls, gs)
    ensures |r| >= FuseBound(ls, gs) && r[..FuseBound(ls, gs)] == ls[..FuseBound(ls, gs)]
    decreases |gs|
  {
    if gs == [] then ls
    else
      var x := FuseRuns(ls, gs[1..]);
      var s := gs[0][0];
      FuseStepPrefix(ls, gs, x);
      FuseAtFrame(x, s);
      FuseAt(x, s)
  }

  lemma FuseStepPrefix(ls: seq<string>, gs: seq<seq<int>>, x: seq<string>)
    requires RunList(ls, gs) && gs != []
    requires |x| >= FuseBound(ls, gs[1..]) && x[..FuseBound(ls, gs[1..])] == ls[..FuseBound(ls, gs[1..])]
    ensures gs[0][0] < |x| && x[..Before(gs[0][0])] == ls[..Before(gs[0][0])]
  {
    PrefixOfPrefix(x, ls, FuseBound(ls, gs[1..]), Before(gs[0][0]));
  }

  /** Fusion keeps every non-whitespace character, in order. */
  lemma {:induction false} FuseRunsContent(ls: seq<string>, gs: seq<seq<int>>)
    requires RunList(ls, gs)
    ensures Content(FuseRuns(ls, gs)) == Content(ls)
    decreases |gs|
  {
    if gs != [] {
      FuseRunsContent(ls, gs[1..]);
      FuseAtContent(FuseRuns(ls, gs[1..]), gs[0][0]);
    }
  }

  /** Each group removes at most one line. */
  lemma {:induction false} FuseRunsLength(ls: seq<string>, gs: seq<seq<int>>)
    requires RunList(ls, gs)
    ensures |ls| - |gs| <= |FuseRuns(ls, gs)| <= |ls|
    decreases |gs|
  {
    if gs != [] {
      FuseRunsLength(ls, gs[1..]);
      FuseAtFrame(FuseRuns(ls, gs[1..]), gs[0][0]);
    }
  }

  /** `collapse_lparen_lines`: merge runs of opener lines, then fuse each opener line
      onto a preceding line that ends with an opener. */
  function OpenerPass(ls: seq<string>): seq<string> {
    var m := MergePass(ls, Opener);
    GroupsRunList(m, Opener, 1);
    FuseRuns(m, Groups(m, Opener, 1))
  }

  /** `collapse_lparen_lines` keeps every non-whitespace character, in order. */
  lemma OpenerPassContent(ls: seq<string>)
    ensures Content(OpenerPass(ls)) == Content(ls)
  {
    var m := MergePass(ls, Opener);
    GroupsRunList(m, Opener, 1);
    MergePassContent(ls, Opener);
    FuseRunsContent(m, Groups(m, Opener, 1));
  }

  /** Fusion never removes the first line, so a non-empty list stays non-empty. */
  lemma {:induction false} FuseRunsNonEmpty(ls: seq<string>, gs: seq<seq<int>>)
    requires RunList(ls, gs) && ls != []
    ensures FuseRuns(ls, gs) != []
    decreases |gs|
  {
    if gs != [] {
      FuseRunsNonEmpty(ls, gs[1..]);
      FuseAtFrame(FuseRuns(ls, gs[1..]), gs[0][0]);
    }
  }

  /** Neither pass adds a line. */
  lemma PassesShrink(ls: seq<string>)
    ensures |MergePass(ls, Closer)| <= |ls| && |OpenerPass(ls)| <= |ls|
  {
    MergePassIsCompress(ls, Closer);
    MergePassIsCompress(ls, Opener);
    var m := MergePass(ls, Opener);
    GroupsRunList(m, Opener, 1);
    FuseRunsLength(m, Groups(m, Opener, 1));
  }

  /** Neither pass empties a non-empty list. */
  lemma PassesNonEmpty(ls: seq<string>)
    requires ls != []
    ensures MergePass(ls, Closer) != [] && OpenerPass(ls) != []
  {
    MergePassIsCompress(ls, Closer);
    MergePassIsCompress(ls, Opener);
    var m := MergePass(ls, Opener);
    GroupsRunList(m, Opener, 1);
    FuseRunsNonEmpty(m, Groups(m, Opener, 1));
  }
}
