/** Line classification and run grouping (`_group_matching_lines` with the closer
    and opener patterns of `collapse_rparen_lines` / `collapse_lparen_lines`). */
module Grouping {
  import opened Text

  /** The two whole-line patterns the formatter builds. */
  datatype Bracket = Closer | Opener

  /** The "body" character class of each pattern: `[\]\)\},:]` and `[\[\(\{]`. */
  predicate IsBody(b: Bracket, c: char) {
    match b
    case Closer => c == ']' || c == ')' || c == '}' || c == ':' || c == ','
    case Opener => c == '[' || c == '(' || c == '{'
  }

  /** `re.match(r"^\s*" + body + body_or_ws + r"*$", line)`: the line is not blank,
      and every character is whitespace or a body character (so the first
      non-whitespace one is a body character). */
  predicate Matches(line: string, b: Bracket) {
    !IsBlank(line) && AllBodyOrSpace(line, b)
  }

  /** Every character is whitespace or a body character. */
  predicate AllBodyOrSpace(s: string, b: Bracket) {
    forall i :: 0 <= i < |s| ==> IsSpace(s[i]) || IsBody(b, s[i])
  }

  lemma MatchesNonEmpty(line: string, b: Bracket)
    requires Matches(line, b)
    ensures |line| > 0
  {
  }

  /** Empty lines never match either pattern, and the first non-whitespace character
      of a matching line is a body character. */
  lemma MatchesShape(line: string, b: Bracket)
    requires Matches(line, b)
    ensures LeadingSpace(line) < |line|
    ensures IsBody(b, LStrip(line)[0])
  {
    BlankIffNoLeadingContent(line);
    LeadingSpaceSpec(line);
    assert LStrip(line)[0] == line[LeadingSpace(line)];
  }

  /** The length of the run of matching lines starting at `j`. */
  function RunLen(ls: seq<string>, b: Bracket, j: nat): (n: nat)
    requires j <= |ls|
    ensures j + n <= |ls|
    ensures j + n < |ls| ==> !Matches(ls[j + n], b)
    decreases |ls| - j
  {
    if j < |ls| && Matches(ls[j], b) then 1 + RunLen(ls, b, j + 1) else 0
  }

  /** Every line of the run matches. */
  lemma {:induction false} RunLenMatches(ls: seq<string>, b: Bracket, j: nat, k: nat)
    requires j <= k < |ls| && k < j + RunLen(ls, b, j)
    ensures Matches(ls[k], b)
    decreases k - j
  {
    if k > j {
      RunLenMatches(ls, b, j + 1, k);
    }
  }

  /** The indices `a, a+1, ..., a+n-1`. */
  function Range(a: int, n: nat): (r: seq<int>)
    ensures |r| == n
    ensures forall k :: 0 <= k < n ==> r[k] == a + k
  {
    seq(n, k => a + k)
  }

  /** The maximal runs of matching lines at or after `j`, in ascending order. */
  function RunsFrom(ls: seq<string>, b: Bracket, j: nat): seq<seq<int>>
    requires j <= |ls|
    decreases |ls| - j
  {
    if j == |ls| then []
    else if !Matches(ls[j], b) then RunsFrom(ls, b, j + 1)
    else
      var n := RunLen(ls, b, j);
      [Range(j, n)] + RunsFrom(ls, b, j + n)
  }

  /** `[g for g in gs if len(g) >= minSize]` */
  function Filter(gs: seq<seq<int>>, minSize: int): (r: seq<seq<int>>)
    ensures |r| <= |gs|
  {
    if gs == [] then []
    else Filter(gs[..|gs| - 1], minSize) + (if |gs[|gs| - 1]| >= minSize then [gs[|gs| - 1]] else [])
  }

  /** Filtering only drops groups: whatever it keeps was there and is long enough. */
  lemma {:induction false} FilterMember(gs: seq<seq<int>>, minSize: int, g: seq<int>)
    requires g in Filter(gs, minSize)
    ensures g in gs && |g| >= minSize
  {
    var init := gs[..|gs| - 1];
    if g in Filter(init, minSize) {
      FilterMember(init, minSize, g);
    }
    assert gs == init + [gs[|gs| - 1]];
  }

  /** The value `_group_matching_lines` returns. The source seeds its list with an
      empty group, which only a minimum size of 0 or less lets through. */
  function Groups(ls: seq<string>, b: Bracket, minSize: int): seq<seq<int>> {
    Filter([[]] + RunsFrom(ls, b, 0), minSize)
  }

  /** `g` is a maximal run: consecutive ascending indices of matching lines,
      with no matching line just before or just after it. */
  predicate IsRun(ls: seq<string>, b: Bracket, g: seq<int>) {
    |g| >= 1 && 0 <= g[0] && g[0] + |g| <= |ls|
    && (forall t :: 0 <= t < |g| ==> g[t] == g[0] + t)
    && (forall t :: 0 <= t < |g| ==> Matches(ls[g[t]], b))
    && (g[0] == 0 || !Matches(ls[g[0] - 1], b))
    && (g[0] + |g| == |ls| || !Matches(ls[g[0] + |g|], b))
  }

  /** Groups are pairwise disjoint and in ascending order, with a gap between any two. */
  predicate Ordered(gs: seq<seq<int>>) {
    forall k, l :: 0 <= k < l < |gs| && gs[k] != [] && gs[l] != [] ==> gs[k][0] + |gs[k]| < gs[l][0]
  }

  // ---------------------------------------------------------------------------
  // The loop of the source
  // ---------------------------------------------------------------------------

  /** `_group_matching_lines(lines, pattern, min_group_size)`: one pass over the
      matching indices, extending the last group when the previous index is in
      it and opening a new group otherwise, then dropping the small groups.
      `sorted(group)` is the identity here, the groups being built ascending. */
  method GroupMatchingLines(lines: seq<string>, b: Bracket, minGroupSize: int)
    returns (groups: seq<seq<int>>)
    ensures groups == Groups(lines, b, minGroupSize)
  {
    var all: seq<seq<int>> := [[]];
    var i := 0;
    while i < |lines|
      invariant 0 <= i <= |lines|
      invariant ScanState(lines, b, i, all)
    {
      ScanStep(lines, b, i, all);
      if Matches(lines[i], b) {
        if i - 1 in all[|all| - 1] {
          all := ExtendLast(all, i);
        } else {
          all := all + [[i]];
        }
      }
      i := i + 1;
    }
    assert lines[..i] == lines;
    groups := [];
    var k := 0;
    while k < |all|
      invariant 0 <= k <= |all|
      invariant groups == Filter(all[..k], minGroupSize)
    {
      assert all[..k + 1][..k] == all[..k];
      if |all[k]| >= minGroupSize {
        groups := groups + [all[k]];
      }
      k := k + 1;
    }
    assert all[..k] == all;
  }

  /** What the first loop of `_group_matching_lines` knows after looking at the
      first `i` lines: its groups are the runs of those lines, and the last group
      holds exactly the trailing matching indices seen so far. */
  ghost predicate ScanState(lines: seq<string>, b: Bracket, i: nat, all: seq<seq<int>>) {
    i <= |lines|
    && all == [[]] + RunsFrom(lines[..i], b, 0)
    && (forall t :: 0 <= t < |Last(all)| ==> 0 <= Last(all)[t] < i && Matches(lines[Last(all)[t]], b))
    && (i > 0 && Matches(lines[i - 1], b) ==> i - 1 in Last(all))
  }

  lemma ScanStep(lines: seq<string>, b: Bracket, i: nat, all: seq<seq<int>>)
    requires i < |lines| && ScanState(lines, b, i, all)
    ensures !Matches(lines[i], b) ==> ScanState(lines, b, i + 1, all)
    ensures Matches(lines[i], b) && i - 1 in Last(all) ==> ScanState(lines, b, i + 1, ExtendLast(all, i))
    ensures Matches(lines[i], b) && i - 1 !in Last(all) ==> ScanState(lines, b, i + 1, all + [[i]])
  {
    var prefix := lines[..i];
    assert lines[..i + 1] == prefix + [lines[i]];
    assert i > 0 ==> prefix[|prefix| - 1] == lines[i - 1];
    RunsSnoc(prefix, lines[i], b, 0);
    var oldLast := Last(all);
    if Matches(lines[i], b) {
      var all';
      if i - 1 in Last(all) {
        assert i > 0 && Matches(lines[i - 1], b) by {
          var t :| 0 <= t < |Last(all)| && Last(all)[t] == i - 1;
        }
        assert ExtendLast(all, i) == [[]] + ExtendLast(RunsFrom(prefix, b, 0), i);
        all' := ExtendLast(all, i);
        assert Last(all') == oldLast + [i];
      } else {
        all' := all + [[i]];
        assert Last(all') == [i];
      }
      forall t | 0 <= t < |Last(all')|
        ensures 0 <= Last(all')[t] < i + 1 && Matches(lines[Last(all')[t]], b)
      {
        if t < |oldLast| && Last(all')[t] == oldLast[t] {
        } else {
          assert Last(all')[t] == i;
        }
      }
      assert i in Last(all') by {
        assert Last(all')[|Last(all')| - 1] == i;
      }
      assert ScanState(lines, b, i + 1, all');
    }
  }

  // ---------------------------------------------------------------------------
  // Lemmas
  // ---------------------------------------------------------------------------

  /** Appending one line extends the run that reaches the end, if any. */
  lemma {:induction false} RunLenSnoc(s: seq<string>, x: string, b: Bracket, j: nat)
    requires j <= |s|
    ensures RunLen(s + [x], b, j)
            == if j + RunLen(s, b, j) == |s| && Matches(x, b) then RunLen(s, b, j) + 1 else RunLen(s, b, j)
    decreases |s| - j
  {
    var t := s + [x];
    if j < |s| {
      assert t[j] == s[j];
      if Matches(s[j], b) {
        RunLenSnoc(s, x, b, j + 1);
      }
    } else {
      assert t[j] == x;
      assert RunLen(t, b, j + 1) == 0;
    }
  }

  function Last(r: seq<seq<int>>): seq<int>
    requires r != []
  {
    r[|r| - 1]
  }

  /** The last group with one more index appended to it. */
  function ExtendLast(r: seq<seq<int>>, i: int): (r': seq<seq<int>>)
    requires r != []
    ensures |r'| == |r| && r'[..|r| - 1] == r[..|r| - 1] && r'[|r| - 1] == r[|r| - 1] + [i]
  {
    r[..|r| - 1] + [r[|r| - 1] + [i]]
  }

  lemma ExtendLastCons(g: seq<int>, r: seq<seq<int>>, i: int)
    requires r != []
    ensures ExtendLast([g] + r, i) == [g] + ExtendLast(r, i)
  {
    assert ([g] + r)[..|r|] == [g] + r[..|r| - 1];
  }

  /** Appending one line changes the runs only at the end: a non-matching line
      changes nothing, a matching one extends the last run when the line before it
      matched and opens a new run otherwise. */
  lemma {:induction false} RunsSnoc(s: seq<string>, x: string, b: Bracket, j: nat)
    requires j <= |s|
    ensures !Matches(x, b) ==> RunsFrom(s + [x], b, j) == RunsFrom(s, b, j)
    ensures j < |s| && Matches(s[|s| - 1], b) ==> RunsFrom(s, b, j) != []
    ensures Matches(x, b) && j < |s| && Matches(s[|s| - 1], b) ==>
              RunsFrom(s + [x], b, j) == ExtendLast(RunsFrom(s, b, j), |s|)
    ensures Matches(x, b) && !(j < |s| && Matches(s[|s| - 1], b)) ==>
              RunsFrom(s + [x], b, j) == RunsFrom(s, b, j) + [[|s|]]
    decreases |s| - j
  {
    var t := s + [x];
    if j == |s| {
      assert t[j] == x;
      assert RunsFrom(s, b, j) == [];
      if Matches(x, b) {
        assert RunLen(t, b, j + 1) == 0;
        assert RunLen(t, b, j) == 1;
        assert Range(j, 1) == [j];
        assert RunsFrom(t, b, j) == [Range(j, 1)] + RunsFrom(t, b, j + 1);
      } else {
        assert RunsFrom(t, b, j) == RunsFrom(t, b, j + 1) == [];
      }
    } else {
      assert t[j] == s[j];
      if !Matches(s[j], b) {
        RunsSnoc(s, x, b, j + 1);
        assert RunsFrom(t, b, j) == RunsFrom(t, b, j + 1);
        assert RunsFrom(s, b, j) == RunsFrom(s, b, j + 1);
      } else {
        var n := RunLen(s, b, j);
        RunLenSnoc(s, x, b, j);
        if j + n == |s| {
          RunsSnocRunToEnd(s, x, b, j);
        } else {
          RunsSnocRunInside(s, x, b, j);
        }
      }
    }
  }

  lemma RunsSnocRunToEnd(s: seq<string>, x: string, b: Bracket, j: nat)
    requires j < |s| && Matches(s[j], b) && j + RunLen(s, b, j) == |s|
    ensures Matches(s[|s| - 1], b)
    ensures RunsFrom(s, b, j) != []
    ensures !Matches(x, b) ==> RunsFrom(s + [x], b, j) == RunsFrom(s, b, j)
    ensures Matches(x, b) ==> RunsFrom(s + [x], b, j) == ExtendLast(RunsFrom(s, b, j), |s|)
  {
    var t := s + [x];
    var n := RunLen(s, b, j);
    RunLenMatches(s, b, j, |s| - 1);
    assert t[j] == s[j];
    RunLenSnoc(s, x, b, j);
    RunsFromAtRun(s, b, j);
    RunsFromAtRun(t, b, j);
    if Matches(x, b) {
      assert RunLen(t, b, j) == n + 1;
      RangeSnoc(j, n);
    } else {
      assert t[j + n] == x;
      assert RunLen(t, b, j) == n;
      assert RunsFrom(t, b, j + n) == RunsFrom(t, b, |t|);
    }
  }

  lemma RangeSnoc(a: int, n: nat)
    ensures Range(a, n) + [a + n] == Range(a, n + 1)
  {
  }

  lemma RunsFromAtRun(ls: seq<string>, b: Bracket, j: nat)
    requires j < |ls| && Matches(ls[j], b)
    ensures RunsFrom(ls, b, j) == [Range(j, RunLen(ls, b, j))] + RunsFrom(ls, b, j + RunLen(ls, b, j))
  {
  }

  lemma RunsSnocRunInside(s: seq<string>, x: string, b: Bracket, j: nat)
    requires j < |s| && Matches(s[j], b) && j + RunLen(s, b, j) < |s|
    decreases |s| - j, 0
    ensures !Matches(x, b) ==> RunsFrom(s + [x], b, j) == RunsFrom(s, b, j)
    ensures Matches(s[|s| - 1], b) ==> RunsFrom(s, b, j) != []
    ensures Matches(x, b) && Matches(s[|s| - 1], b) ==>
              RunsFrom(s + [x], b, j) == ExtendLast(RunsFrom(s, b, j), |s|)
    ensures Matches(x, b) && !Matches(s[|s| - 1], b) ==>
              RunsFrom(s + [x], b, j) == RunsFrom(s, b, j) + [[|s|]]
  {
    var t := s + [x];
    var n := RunLen(s, b, j);
    assert t[j] == s[j];
    RunLenSnoc(s, x, b, j);
    RunsFromAtRun(t, b, j);
    RunsFromAtRun(s, b, j);
    var g := Range(j, n);
    var r := RunsFrom(s, b, j + n);
    var r' := RunsFrom(t, b, j + n);
    assert RunsFrom(t, b, j) == [g] + r';
    assert RunsFrom(s, b, j) == [g] + r;
    RunsSnoc(s, x, b, j + n);
    if Matches(x, b) && Matches(s[|s| - 1], b) {
      assert r' == ExtendLast(r, |s|);
      ExtendLastCons(g, r, |s|);
    }
  }

  /** The run starting at a boundary is a maximal run. */
  lemma FirstRunIsRun(ls: seq<string>, b: Bracket, j: nat)
    requires j < |ls| && Matches(ls[j], b)
    requires j == 0 || !Matches(ls[j - 1], b)
    ensures IsRun(ls, b, Range(j, RunLen(ls, b, j)))
  {
    var n := RunLen(ls, b, j);
    forall t | 0 <= t < n
      ensures Matches(ls[Range(j, n)[t]], b)
    {
      RunLenMatches(ls, b, j, j + t);
    }
  }

  /** Every run found from `j` on is maximal, starts at or after `j`, and they are ordered. */
  lemma {:induction false} RunsFromWellFormed(ls: seq<string>, b: Bracket, j: nat)
    requires j <= |ls|
    requires j == 0 || j == |ls| || !Matches(ls[j - 1], b) || !Matches(ls[j], b)
    ensures forall g :: g in RunsFrom(ls, b, j) ==> IsRun(ls, b, g) && g[0] >= j
    ensures Ordered(RunsFrom(ls, b, j))
    decreases |ls| - j
  {
    if j < |ls| {
      if !Matches(ls[j], b) {
        RunsFromWellFormed(ls, b, j + 1);
      } else {
        var n := RunLen(ls, b, j);
        RunsFromWellFormed(ls, b, j + n);
        RunsFromRunStep(ls, b, j);
      }
    }
  }

  /** The induction step of `RunsFromWellFormed` at a run. */
  lemma RunsFromRunStep(ls: seq<string>, b: Bracket, j: nat)
    requires j < |ls| && Matches(ls[j], b)
    requires j == 0 || !Matches(ls[j - 1], b)
    requires forall g :: g in RunsFrom(ls, b, j + RunLen(ls, b, j)) ==> IsRun(ls, b, g) && g[0] >= j + RunLen(ls, b, j)
    requires Ordered(RunsFrom(ls, b, j + RunLen(ls, b, j)))
    ensures forall g :: g in RunsFrom(ls, b, j) ==> IsRun(ls, b, g) && g[0] >= j
    ensures Ordered(RunsFrom(ls, b, j))
  {
    var n := RunLen(ls, b, j);
    RunsFromAtRun(ls, b, j);
    FirstRunIsRun(ls, b, j);
    RunsCons(ls, b, Range(j, n), RunsFrom(ls, b, j + n));
  }

  /** A maximal run followed by runs that all start after it. */
  lemma RunsCons(ls: seq<string>, b: Bracket, g: seq<int>, rest: seq<seq<int>>)
    requires IsRun(ls, b, g) && Ordered(rest)
    requires forall h :: h in rest ==> IsRun(ls, b, h) && h[0] >= g[0] + |g|
    ensures forall h :: h in [g] + rest ==> IsRun(ls, b, h) && h[0] >= g[0]
    ensures Ordered([g] + rest)
  {
    var k := g[0] + |g|;
    forall h | h in rest ensures h != [] && k < h[0] {
      RunAfter(ls, b, k, h);
    }
    OrderedCons(g, rest);
  }

  /** A run found at or after a non-matching line `k` starts after it. */
  lemma RunAfter(ls: seq<string>, b: Bracket, k: nat, h: seq<int>)
    requires k <= |ls| && (k == |ls| || !Matches(ls[k], b))
    requires IsRun(ls, b, h) && h[0] >= k
    ensures h != [] && k < h[0]
  {
    assert Matches(ls[h[0]], b);
  }

  lemma OrderedCons(g: seq<int>, rest: seq<seq<int>>)
    requires Ordered(rest) && |g| >= 1
    requires forall h :: h in rest ==> h != [] && g[0] + |g| < h[0]
    ensures Ordered([g] + rest)
  {
    var r := [g] + rest;
    forall k, l | 0 <= k < l < |r| && r[k] != [] && r[l] != [] ensures r[k][0] + |r[k]| < r[l][0] {
      assert r[l] == rest[l - 1];
      if k > 0 {
        assert r[k] == rest[k - 1];
      }
    }
  }

  lemma {:induction false} FilterPrepend(x: seq<int>, gs: seq<seq<int>>, minSize: int)
    ensures Filter([x] + gs, minSize) == (if |x| >= minSize then [x] else []) + Filter(gs, minSize)
    decreases |gs|
  {
    if gs != [] {
      var gs' := gs[..|gs| - 1];
      assert ([x] + gs)[..|gs|] == [x] + gs';
      FilterPrepend(x, gs', minSize);
    } else {
      assert [x][..0] == [];
    }
  }

  lemma {:induction false} FilterOrdered(gs: seq<seq<int>>, minSize: int)
    requires Ordered(gs)
    ensures Ordered(Filter(gs, minSize))
    decreases |gs|
  {
    if gs != [] {
      var init := gs[..|gs| - 1];
      assert Ordered(init) by {
        forall k, l | 0 <= k < l < |init| && init[k] != [] && init[l] != []
          ensures init[k][0] + |init[k]| < init[l][0]
        {
          assert init[k] == gs[k] && init[l] == gs[l];
        }
      }
      FilterOrdered(init, minSize);
      var r := Filter(init, minSize);
      var x := gs[|gs| - 1];
      if |x| >= minSize {
        forall g | g in r && g != [] && x != []
          ensures g[0] + |g| < x[0]
        {
          FilterMember(init, minSize, g);
          var k :| 0 <= k < |init| && init[k] == g;
          assert gs[k] == g;
        }
        var r' := r + [x];
        assert Filter(gs, minSize) == r';
        forall k, l | 0 <= k < l < |r'| && r'[k] != [] && r'[l] != []
          ensures r'[k][0] + |r'[k]| < r'[l][0]
        {
          assert r'[k] == r[k];
          if l < |r| {
            assert r'[l] == r[l];
          } else {
            assert r[k] in r;
          }
        }
      }
    }
  }

  /** The groups are well formed and maximal: each is a run of at least
      `minSize` consecutive matching lines with no matching neighbour, and they
      come in ascending order with a gap between any two. */
  lemma GroupsWellFormed(ls: seq<string>, b: Bracket, minSize: int)
    requires minSize >= 1
    ensures forall g :: g in Groups(ls, b, minSize) ==> IsRun(ls, b, g) && |g| >= minSize
    ensures Ordered(Groups(ls, b, minSize))
  {
    var r := RunsFrom(ls, b, 0);
    RunsFromWellFormed(ls, b, 0);
    FilterPrepend([], r, minSize);
    FilterOrdered(r, minSize);
    assert Groups(ls, b, minSize) == Filter(r, minSize);
    forall g | g in Groups(ls, b, minSize) ensures IsRun(ls, b, g) && |g| >= minSize {
      FilterMember(r, minSize, g);
    }
  }

  /** A stretch of `n` matching lines followed by the end or a non-matching line
      is measured exactly. */
  lemma {:induction false} RunLenOf(ls: seq<string>, b: Bracket, j: nat, n: nat)
    requires j + n <= |ls| && (forall k :: j <= k < j + n ==> Matches(ls[k], b))
    requires j + n == |ls| || !Matches(ls[j + n], b)
    ensures RunLen(ls, b, j) == n
    decreases n
  {
    if n > 0 {
      RunLenOf(ls, b, j + 1, n - 1);
    }
  }

  /** Scanning from any line at or before a maximal run finds that run. */
  lemma {:induction false} RunsFromFinds(ls: seq<string>, b: Bracket, j: nat, g: seq<int>)
    requires IsRun(ls, b, g) && j <= g[0]
    ensures g in RunsFrom(ls, b, j)
    decreases |ls| - j
  {
    assert Matches(ls[g[0]], b);
    if !Matches(ls[j], b) {
      RunsFromFinds(ls, b, j + 1, g);
    } else {
      RunsFromAtRun(ls, b, j);
      if j == g[0] {
        RunIsRange(ls, b, g);
      } else {
        RunEndsBefore(ls, b, j, g);
        RunsFromFinds(ls, b, j + RunLen(ls, b, j), g);
      }
    }
  }

  /** A maximal run is the run measured from its first line. */
  lemma RunIsRange(ls: seq<string>, b: Bracket, g: seq<int>)
    requires IsRun(ls, b, g)
    ensures g == Range(g[0], RunLen(ls, b, g[0]))
  {
    forall k | g[0] <= k < g[0] + |g| ensures Matches(ls[k], b) {
      assert g[k - g[0]] == k;
    }
    RunLenOf(ls, b, g[0], |g|);
  }

  /** The run measured from a matching line before a maximal run ends before it. */
  lemma RunEndsBefore(ls: seq<string>, b: Bracket, j: nat, g: seq<int>)
    requires IsRun(ls, b, g) && j < g[0]
    ensures j + RunLen(ls, b, j) <= g[0]
  {
    if g[0] < j + RunLen(ls, b, j) {
      RunLenMatches(ls, b, j, g[0] - 1);
      assert false;
    }
  }

  /** Filtering keeps every group that is long enough. */
  lemma {:induction false} FilterKeeps(gs: seq<seq<int>>, minSize: int, g: seq<int>)
    requires g in gs && |g| >= minSize
    ensures g in Filter(gs, minSize)
    decreases |gs|
  {
    var init := gs[..|gs| - 1];
    assert gs == init + [gs[|gs| - 1]];
    if g != gs[|gs| - 1] {
      FilterKeeps(init, minSize, g);
    }
  }

  /** Every maximal run of at least `minSize` matching lines is one of the groups. */
  lemma GroupsComplete(ls: seq<string>, b: Bracket, minSize: int, g: seq<int>)
    requires IsRun(ls, b, g) && |g| >= minSize
    ensures g in Groups(ls, b, minSize)
  {
    RunsFromFinds(ls, b, 0, g);
    FilterKeeps([[]] + RunsFrom(ls, b, 0), minSize, g);
  }

  /** For a positive minimum, the groups are exactly the maximal runs of at least
      that many matching lines. */
  lemma GroupsExactly(ls: seq<string>, b: Bracket, minSize: int)
    requires minSize >= 1
    ensures forall g :: g in Groups(ls, b, minSize) <==> IsRun(ls, b, g) && |g| >= minSize
  {
    GroupsWellFormed(ls, b, minSize);
    forall g | IsRun(ls, b, g) && |g| >= minSize ensures g in Groups(ls, b, minSize) {
      GroupsComplete(ls, b, minSize, g);
    }
  }
}
