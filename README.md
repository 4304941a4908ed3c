# Compactify, the editor server's selection helpers, and rmspace, in Dafny

This project models the text-processing core of a formatter extension for Python
in an editor. The extension has three parts:

- **compactify** (`bundled/libs/compactify/core.py`) collapses lines made only of
  closing brackets, commas and colons into one line. It does the same for lines made
  only of opening brackets, then fuses an opening-bracket line onto a previous line
  that ends with an opening bracket. Finally it pulls back lines that are indented
  more than four columns deeper than the nearest non-blank line above them.
  `format_code` runs these passes on the lines of a source text. It keeps the
  result only if a Python validity check accepts it.
- **the editor server** (`bundled/tool/server.py`) formats a selection. It finds
  the offset at which each line starts, cuts the selected text out, and counts
  the blank lines at either end. It detects the document's line terminator,
  converts the formatted text's terminators to it, and adds back the blank lines
  that formatting removed around the selection.
- **rmspace** (`bundled/libs/rmspace/main.py`) removes every run of spaces and
  tabs that comes right before a line feed or at the end of the text.

The modules are:

- `Text` (`text.dfy`): the Python string primitives these parts rely on. These are
  `\s`, `strip`/`lstrip`/`rstrip`, `join`, clamped slicing and `splitlines`. Each
  line is modelled as its text plus the terminator that ended it.
- `Grouping` (`grouping.dfy`): the two whole-line bracket patterns, and
  `_group_matching_lines` as the loop the source runs. That loop is proved equal
  to a recursive definition by maximal runs.
- `Merging` (`merging.dfy`): `_merge_lines`, the closer pass and the opener pass
  as functions on lists of lines. Each pass is tied to an independent top-down
  reference definition, `Compress`.
- `Deindent` (`deindent.dfy`): the arithmetic of `remove_excessive_indent`. The
  nested loops are methods proved against closed-form definitions.
- `Compactify` (`compactify.dfy`): the `lines` list that the passes rewrite in
  place, as the class `LineList`, and `format_code`. The validity check is a
  parameter.
- `Server` (`server.dfy`): the server's string helpers and the padding step of
  `_formatting_helper`.
- `Rmspace` (`rmspace.dfy`): `format_str` with its default pattern.

## Model

| member | source | states |
|---|---|---|
| Text.SplitLines | bundled/libs/compactify/core.py:143-144 | `str.splitlines`, each line kept with its terminator; the empty text alone has no lines. Its properties are in `SplitLinesShape`, `SplitLinesRoundTrip` and `SplitLinesContent` |
| Text.SplitLinesShape | bundled/libs/compactify/core.py:143-144 | every line `splitlines` yields is free of breaks and ends in a recognised terminator (`\r\n` or one break character); only the last line may lack one, and no line is empty with its terminator |
| Text.SplitLinesRoundTrip | bundled/libs/compactify/core.py:143-144 | `"".join(s.splitlines(keepends=True)) == s` |
| Text.SplitLinesContent | bundled/libs/compactify/core.py:143 | the lines without terminators hold exactly the non-whitespace characters of the text, in order |
| Text.LStrip | bundled/libs/compactify/core.py:71 | `str.lstrip()`: a suffix of the line; its properties are in `LStripSpec` |
| Text.LStripSpec | bundled/libs/compactify/core.py:71 | `lstrip` removes a whitespace prefix and stops at a non-whitespace character |
| Text.RStrip | bundled/libs/compactify/core.py:68 | `str.rstrip()`: a prefix of the line; its properties are in `RStripSpec` |
| Text.RStripSpec | bundled/libs/compactify/core.py:68 | `rstrip` removes a whitespace suffix and stops at a non-whitespace character |
| Text.LeadingSpaceSpec | bundled/libs/compactify/core.py:87 | `len(line) - len(line.lstrip())` counts a whitespace prefix that stops at the first other character |
| Text.RemoveSpace | bundled/libs/compactify/core.py:33 | `re.sub(r"\s", "", s)`, never longer than `s`; its properties are in `RemoveSpaceLeavesNone`, `RemoveSpaceBlank` and the content lemmas |
| Text.RemoveSpaceLeavesNone | bundled/libs/compactify/core.py:33 | `re.sub(r"\s", "", s)` leaves no whitespace |
| Text.RemoveSpaceBlank | bundled/libs/compactify/core.py:136 | `not s.strip()` holds exactly when removing whitespace leaves nothing |
| Text.JoinContent | bundled/libs/compactify/core.py:153 | joining with a whitespace separator adds only whitespace |
| Text.JoinEndsWithSep | bundled/libs/compactify/core.py:150-153 | joining a list that ends with `""` gives a text that ends with the separator |
| Grouping.MatchesShape | bundled/libs/compactify/core.py:45-47 | a line matching `^\s*B[B\s]*$` is not all whitespace, and its first non-whitespace character is in the class B |
| Grouping.Groups | bundled/libs/compactify/core.py:9-23 | definition: the seed group and the maximal runs, filtered by size; its properties are in `GroupMatchingLines`, `GroupsWellFormed`, `GroupsComplete` and `GroupsExactly` |
| Grouping.GroupMatchingLines | bundled/libs/compactify/core.py:9-23 | the source's loop (extend the last group when `i - 1` is in it, otherwise open a group; then drop small groups) returns exactly the maximal runs of matching lines, seed group included, filtered by `min_group_size` |
| Grouping.GroupsWellFormed | bundled/libs/compactify/core.py:12-15 | for `min_group_size >= 1`, every group is a maximal run of at least that many consecutive matching lines, with no matching neighbour on either side; the groups ascend with a gap between any two |
| Grouping.GroupsComplete | bundled/libs/compactify/core.py:16-23 | every maximal run of matching lines that is at least `min_group_size` long is among the returned groups |
| Grouping.GroupsExactly | bundled/libs/compactify/core.py:12-23 | for `min_group_size >= 1`, a list of indices is returned as a group if and only if it is a maximal run of consecutive matching lines of at least that length |
| Grouping.RunsFromFinds | bundled/libs/compactify/core.py:16-22 | the scan from line `j` on finds every maximal run of matching lines that starts at or after `j` |
| Grouping.FilterKeeps | bundled/libs/compactify/core.py:23 | the final filter keeps every group of at least the minimum size |
| Grouping.FilterMember | bundled/libs/compactify/core.py:23 | the final filter only drops groups, and keeps only groups of at least the minimum size |
| Merging.MergedLine | bundled/libs/compactify/core.py:30-33 | definition of `new_line`; its properties are in `MinIndentSpec`, `MergedLineContent`, `MergedLineIndent` and `MergedLineMatches` |
| Merging.MinIndentSpec | bundled/libs/compactify/core.py:31 | the indent is the smallest indentation of a non-blank member, and 0 when every member is blank |
| Merging.IndentCharIsSpace | bundled/libs/compactify/core.py:32 | when the indent is positive, the first member's first character is whitespace |
| Merging.MergedLineContent | bundled/libs/compactify/core.py:33 | the merged line holds exactly the non-whitespace characters of the members, in order |
| Merging.MergedLineIndent | bundled/libs/compactify/core.py:31-33 | the merged line is indented exactly as deep as its least indented non-blank member |
| Merging.MergedLineMatches | bundled/libs/compactify/core.py:26-37 | merging lines that all match a bracket pattern gives a line that matches it too |
| Merging.Pick | bundled/libs/compactify/core.py:30 | `[lines[i] for i in group]`, element by element |
| Merging.Merged | bundled/libs/compactify/core.py:34-37 | definition of the list after the pops and the insert; its properties are in `Pick`, `MergedRun` and `LineList.MergeLines` |
| Merging.MergedRun | bundled/libs/compactify/core.py:34-37 | merging the run `a .. a+n-1` replaces those n lines by the merged line at `a` and leaves the lines before and after unchanged |
| Merging.MergeRuns | bundled/libs/compactify/core.py:49-50 | merging the groups last-first never touches the lines before the first group |
| Merging.Compress | bundled/libs/compactify/core.py:40-50 | the top-down reference pass produces no more lines than it reads, and at least one from a non-empty list |
| Merging.MergePass | bundled/libs/compactify/core.py:49-50 | definition: the merge loop over the groups of at least two lines (also lines 62-63); its properties are in `MergePassIsCompress`, `MergePassContent`, `MergePassNoAdjacent` and `MergePassIdempotent` |
| Merging.MergePassIsCompress | bundled/libs/compactify/core.py:40-50 | the pass, as the source runs it (find the groups, merge them last-first), equals the reference pass: each maximal run of two or more matching lines becomes its merged line, and every other line is copied |
| Merging.MergePassContent | bundled/libs/compactify/core.py:40-50 | a merge pass keeps every non-whitespace character, in order |
| Merging.MergePassNoAdjacent | bundled/libs/compactify/core.py:41-43 | after a merge pass no two neighbouring lines both match the pattern |
| Merging.CompressCopies | bundled/libs/compactify/core.py:40-50 | where no two neighbouring lines match, the reference pass copies the list unchanged |
| Merging.MergePassIdempotent | bundled/libs/compactify/core.py:40-50 | a second `collapse_rparen_lines` (or the first loop of `collapse_lparen_lines`) changes nothing |
| Merging.FuseAt | bundled/libs/compactify/core.py:66-74 | definition of one fusion iteration; its properties are in `FuseAtFrame`, `FuseAtContent` and `LineList.FuseAtStart` |
| Merging.FuseAtFrame | bundled/libs/compactify/core.py:66-74 | one fusion step keeps every line before `start - 1` and removes at most one line |
| Merging.FuseAtContent | bundled/libs/compactify/core.py:73-74 | fusing `rstrip` of one line with `lstrip` of the next keeps every non-whitespace character, in order |
| Merging.FuseRuns | bundled/libs/compactify/core.py:65-74 | fusing the groups last-first never touches the lines before the first group's predecessor |
| Merging.FuseRunsContent | bundled/libs/compactify/core.py:65-74 | the fusion loop keeps every non-whitespace character, in order |
| Merging.FuseRunsLength | bundled/libs/compactify/core.py:65-74 | each group removes at most one line |
| Merging.OpenerPass | bundled/libs/compactify/core.py:53-74 | definition: merge, then fuse; its properties are in `OpenerPassContent`, `PassesNonEmpty`, `PassesShrink` and `LineList.CollapseLparenLines` |
| Merging.OpenerPassContent | bundled/libs/compactify/core.py:53-74 | `collapse_lparen_lines` keeps every non-whitespace character, in order |
| Merging.PassesNonEmpty | bundled/libs/compactify/core.py:40-74 | neither pass empties a non-empty list of lines |
| Merging.PassesShrink | bundled/libs/compactify/core.py:40-74 | neither `collapse_rparen_lines` nor `collapse_lparen_lines` adds a line |
| Compactify.SentinelTests | bundled/libs/compactify/core.py:66-72 | testing `(" " + prev.rstrip())[-1]` and `(line.lstrip() + " ")[0]` is exactly "the previous line ends with an opener" and "this line starts with one", because the sentinel space never matches |
| Compactify.LineList.MergeLines | bundled/libs/compactify/core.py:26-37 | popping the members from the highest index down and inserting the merged line at the smallest index leaves exactly `Merged(old lines, group)` |
| Compactify.LineList.MergeReversed | bundled/libs/compactify/core.py:49-50 | the loop over the reversed groups leaves `MergeRuns(old lines, groups)` |
| Compactify.LineList.CollapseRparenLines | bundled/libs/compactify/core.py:40-50 | the list becomes the closer merge pass of the old list |
| Compactify.LineList.CollapseLparenLines | bundled/libs/compactify/core.py:53-74 | the list becomes the opener pass of the old list: the runs are merged, then fused |
| Compactify.LineList.FuseReversed | bundled/libs/compactify/core.py:65-74 | the loop over the reversed starts leaves `FuseRuns(old lines, starts)` |
| Compactify.LineList.FuseAtStart | bundled/libs/compactify/core.py:66-74 | one iteration: when the line before `start` ends with an opener and line `start` begins with one, the two become one line; otherwise nothing changes |
| Compactify.LineList.RemoveExcessiveIndent | bundled/libs/compactify/core.py:77-115 | the list becomes `DeindentedAsWritten(old lines)`: every line loses its whole accumulated de-indent |
| Compactify.LineList.RemoveExcessiveIndentCapped | bundled/libs/compactify/core.py:114-115 | the corrected pass: each line's cut is limited to its own indentation |
| Compactify.CompactedContent | bundled/libs/compactify/core.py:146-148 | the three corrected passes keep every non-whitespace character, in order |
| Compactify.CompactedNonEmpty | bundled/libs/compactify/core.py:146-148 | neither version of the passes empties a non-empty list |
| Compactify.CompactedShrinks | bundled/libs/compactify/core.py:146-148 | the three passes never add a line, in the corrected and in the as-written version |
| Compactify.LineEndBlank | bundled/libs/compactify/core.py:144 | `line_end_character` is whitespace (a terminator, or empty) |
| Compactify.RejoinedContent | bundled/libs/compactify/core.py:150-153 | rejoining the lines adds only whitespace |
| Compactify.RejoinedKeepsEnding | bundled/libs/compactify/core.py:150-153 | a source that ends with its terminator gives a joined text that ends with it |
| Compactify.FormatCodeKeepsText | bundled/libs/compactify/core.py:143-153 | the new text has exactly the non-whitespace characters of the source |
| Compactify.FormatCodeKeepsEnding | bundled/libs/compactify/core.py:144-153 | the new text keeps a final terminator the source has |
| Compactify.FormatCode | bundled/libs/compactify/core.py:127-159 | corrected (core.py:155 checks the new text; de-indent capped): a blank or invalid source is returned unchanged; otherwise the result is the rejoined compacted lines when the check accepts them, else the source. A valid source always gives a valid result, and the result has the same non-whitespace characters and keeps a final terminator |
| Compactify.FormatCodeAsWritten | bundled/libs/compactify/core.py:127-159 | `format_code` as written: the final check re-tests `source` and the de-indent is uncapped. Definition; its properties are in `FormatCodeAsWrittenNeverRejects` and `FormatCodeAsWrittenReturnsRejected` |
| Compactify.FormatCodeAsWrittenNeverRejects | bundled/libs/compactify/core.py:155-157 | as written, the second check tests `source` again, so whatever passed the first check is returned rewritten |
| Compactify.ClosersCompacted | bundled/libs/compactify/core.py:40-50 | the passes turn the lines `)` `)` into the single line `))` |
| Compactify.ClosersRejoined | bundled/libs/compactify/core.py:143-153 | the source `")\n)"` splits into `)` `)`, and the rejoined result is `"))"` |
| Compactify.FormatCodeAsWrittenReturnsRejected | bundled/libs/compactify/core.py:155-159 | with a check that accepts only `")\n)"`, the function as written returns `"))"`, a text the check rejects |
| Deindent.Best | bundled/libs/compactify/core.py:89-97 | `best_indents[i]` is at most the line's own indent, at most four more than the indent of the nearest non-blank line above, and equal to one of them |
| Deindent.DropPrefix | bundled/libs/compactify/core.py:115 | `s[d:]` is a suffix of `s`, clamped to empty |
| Deindent.PreviousIndent | bundled/libs/compactify/core.py:91-95 | the backward search returns the indent of the nearest non-blank line above line `i`, or 0 |
| Deindent.BestIndents | bundled/libs/compactify/core.py:89-97 | the appended list is `Best(lines, k)` at every index |
| Deindent.ReachesStops | bundled/libs/compactify/core.py:109-111 | once the inner loop breaks at a line, no later line is reached |
| Deindent.Propagate | bundled/libs/compactify/core.py:107-112 | the inner loop for line `i` adds exactly that line's contribution to every `deindents[j]` |
| Deindent.Deindents | bundled/libs/compactify/core.py:99-112 | after the outer loop, `deindents[t]` is the closed-form total for line `t` |
| Deindent.Plan | bundled/libs/compactify/core.py:86-112 | `indents` are the lines' indentations, and `deindents` are the closed-form totals |
| Deindent.AccumulatedUpTo | bundled/libs/compactify/core.py:109-112 | only the passes for lines at or above `j` reach line `j` |
| Deindent.TotalFirst | bundled/libs/compactify/core.py:99-112 | line 0 is never cut |
| Deindent.DeindentedAsWritten | bundled/libs/compactify/core.py:114-115 | definition, as written: each line loses its whole accumulated cut; its properties are in `AsWrittenOf`, `DeindentedAsWrittenShape`, `DeindentedAsWrittenNoChange` and `DeindentedAsWrittenDropsCode` |
| Deindent.Deindented | bundled/libs/compactify/core.py:114-115 | definition, corrected: each cut is limited to the line's indentation; its properties are in `CappedOf`, `DeindentedKeepsText` and `DeindentedNoChange` |
| Deindent.AsWrittenOf | bundled/libs/compactify/core.py:114-115 | cutting every line by its final `deindents` entry is the as-written result |
| Deindent.CappedOf | bundled/libs/compactify/core.py:114-115 | cutting every line by at most its indentation is the corrected result |
| Deindent.DeindentedAsWrittenShape | bundled/libs/compactify/core.py:114-115 | as written, the pass keeps the line count and line 0, and leaves each line a suffix of itself |
| Deindent.DeindentedAsWrittenNoChange | bundled/libs/compactify/core.py:107-112 | when no line is more than four columns deeper than the nearest non-blank line above it, nothing changes |
| Deindent.DeindentedAsWrittenDropsCode | bundled/libs/compactify/core.py:107-115 | on `a`, nine spaces, nine spaces plus `b`, the last line (not blank) loses 10 characters and becomes empty |
| Deindent.DropIndent | bundled/libs/compactify/core.py:115 | cutting at most the indentation changes neither `lstrip` nor the non-whitespace characters |
| Deindent.DeindentedKeepsText | bundled/libs/compactify/core.py:114-115 | the corrected pass keeps the line count and line 0; every line is a suffix of itself with the same `lstrip`, and the non-whitespace content of the list is unchanged |
| Deindent.DeindentedKeepsCodeExample | bundled/libs/compactify/core.py:114-115 | on the same three lines, the corrected pass leaves `b` |
| Deindent.DeindentedNoChange | bundled/libs/compactify/core.py:107-115 | without an over-indented line, the corrected pass changes nothing either |
| Server.GetLineStartCharnos | bundled/tool/server.py:245-252 | the running-total loop returns the offset of each line of `splitlines(keepends=True)` |
| Server.ChunksSpec | bundled/tool/server.py:249 | the lines with their terminators are non-empty and concatenate to the source |
| Server.LineStarts | bundled/tool/server.py:246-252 | one offset per line; its other properties are in `LineStartsSpec` and `GetLineStartCharnos` |
| Server.LineStartsSpec | bundled/tool/server.py:245-252 | the first offset is 0, each next offset is the previous one plus that line's length, the offsets strictly increase, and all lie inside the text |
| Server.GetTextSubset | bundled/tool/server.py:255-271 | `InvalidSelection` exactly when the start line is past the last line |
| Server.TextSubsetOfEmpty | bundled/tool/server.py:262-265 | in an empty document every selection is invalid |
| Server.TextSubsetWholeLines | bundled/tool/server.py:259-271 | selecting from the start of line `i` to the start of line `j` gives lines `i` to `j-1` with their terminators; an end line past the last line selects to the end |
| Server.TextSubsetWholeDocument | bundled/tool/server.py:266-271 | a selection from (0, 0) to past the last line is the whole document |
| Server.NewlinesAtStartEnd | bundled/tool/server.py:112-131 | definition of the two counts, `None` on an empty text; its properties are in `NewlinesAtStartEndSpec` and `CountNewlinesAtStartEnd` |
| Server.LeadingBlankSpec | bundled/tool/server.py:116-120 | the first count is the number of blank lines before the first non-blank one |
| Server.TrailingBlankSpec | bundled/tool/server.py:122-126 | the second loop counts the blank lines after the last non-blank one |
| Server.CountLeadingBlank | bundled/tool/server.py:115-120 | the first loop with its `break` computes that count |
| Server.CountTrailingBlank | bundled/tool/server.py:122-126 | the reversed loop with its `break` computes that count |
| Server.CountNewlinesAtStartEnd | bundled/tool/server.py:112-131 | the function as written returns `NewlinesAtStartEnd`, and nothing for an empty text (the `IndexError` at `split_keepends[-1]`) |
| Server.LastEnding | bundled/tool/server.py:128-129 | the last line keeps a terminator exactly when the text ends with a line-break character |
| Server.NewlinesAtStartEndSpec | bundled/tool/server.py:112-131 | only an empty text has no counts; otherwise the first count is the blank-line prefix, and the second is the blank-line suffix plus one when the text ends with a break |
| Server.GetLineEndings | bundled/tool/server.py:177-184 | nothing for an empty list; otherwise `"\r\n"` exactly when the first element ends in CRLF, and `"\n"` otherwise |
| Server.CrlfEnding | bundled/tool/server.py:180 | a line ends in CRLF exactly when its terminator is CRLF |
| Server.ChunksLineEndings | bundled/tool/server.py:189 | on a document's lines, detection gives nothing exactly for an empty document, and CRLF exactly when the first line's terminator is CRLF |
| Server.CharactersLineEndings | bundled/tool/server.py:164 | handed the document string itself, detection never reports CRLF |
| Server.Replace | bundled/tool/server.py:193 | definition of `str.replace`, scanning left to right; its properties are in `ReplaceKeepsText`, `ReplaceToCrlf` and `ReplaceRoundTrip` |
| Server.ReplaceKeepsText | bundled/tool/server.py:193 | replacing whitespace by whitespace keeps every other character, in order |
| Server.ReplaceToCrlf | bundled/tool/server.py:193 | on text without CR, `replace("\n", "\r\n")` leaves every LF preceded by CR |
| Server.ReplaceRoundTrip | bundled/tool/server.py:193 | on text without CR, replacing LF by CRLF and then CRLF by LF gives back the text |
| Server.MatchLineEndings | bundled/tool/server.py:187-193 | definition; its properties are in `MatchLineEndingsKeepsText`, `MatchLineEndingsSame`, `MatchLineEndingsToCrlf` and `MatchLineEndingsToLf` |
| Server.MatchLineEndingsKeepsText | bundled/tool/server.py:187-193 | matching the line endings changes only whitespace |
| Server.MatchLineEndingsSame | bundled/tool/server.py:191-192 | text whose first line ends like the document's (or an empty document or text) is returned unchanged |
| Server.MatchLineEndingsToCrlf | bundled/tool/server.py:193 | into a CRLF document, LF text is converted with `replace("\n", "\r\n")` and ends up with every LF preceded by CR |
| Server.MatchLineEndingsToLf | bundled/tool/server.py:193 | into an LF document, CRLF text is converted with `replace("\r\n", "\n")` |
| Server.Cap | bundled/tool/server.py:23 | `min(MAX_SEQUENTIAL_NEWLINES, n)` is at most 3 and at most `n`, and equals one of them |
| Server.Missing | bundled/tool/server.py:166-172 | the number of terminators added is at most 3; after adding, the count reaches `min(3, expected)`, exactly when anything is added |
| Server.PadShape | bundled/tool/server.py:169-172 | padding puts exactly `Missing` copies of the newline string in front and behind, and leaves the formatted text intact between them |
| Server.PadRangeAsWritten | bundled/tool/server.py:162-172 | definition as written, with the terminator taken from `_get_line_endings(document.source)`; its properties are in `PadRangeSameCounts`, `PadOneInFront` and `PadRangeAsWrittenAddsBareLf` |
| Server.PadRange | bundled/tool/server.py:162-172 | definition, corrected: the terminator comes from the document's lines; its properties are in `PadRangeShape` and `PadRangeKeepsCrlf` |
| Server.PadRangeShape | bundled/tool/server.py:162-172 | the corrected padding fails exactly when a text is empty, and otherwise pads with the document's own terminator |
| Server.PadRangeSameCounts | bundled/tool/server.py:164 | as written, the padding always uses `"\n"`, with the same counts |
| Server.PadRangeKeepsCrlf | bundled/tool/server.py:162-172 | the corrected padding of CRLF-only text in a CRLF document stays CRLF-only |
| Server.PrependLeadingBlank | bundled/tool/server.py:170 | each newline string put in front adds exactly one leading blank line |
| Server.PadOneInFront | bundled/tool/server.py:162-172 | with one blank line expected in front and none present, each variant adds one terminator in front |
| Server.PadRangeAsWrittenAddsBareLf | bundled/tool/server.py:139-172 | in the CRLF document `"x\r\n\r\na"`, the range (1,0)–(3,0) selects `"\r\na"`, with one blank line in front; formatted to `"a"`, it is padded to `"\na"` as written (a bare LF), and to `"\r\na"` when corrected |
| Rmspace.FormatStr | bundled/libs/rmspace/main.py:72-75 | definition of `format_str` with the default pattern; its properties are in `FormatStrNoTrailing`, `FormatStrKeepsSolid`, `FormatStrUnchanged` and `FormatStrIdempotent` |
| Rmspace.RunLengthSpec | bundled/libs/rmspace/main.py:14 | the leading run is made of spaces and tabs, and is maximal |
| Rmspace.FormatStrNoTrailing | bundled/libs/rmspace/main.py:72-75 | the result has no space or tab before a line feed or at the end |
| Rmspace.FormatStrKeepsSolid | bundled/libs/rmspace/main.py:72-75 | only spaces and tabs are deleted: every other character survives, in order, and the text never grows |
| Rmspace.FormatStrKeepsInnerRun | bundled/libs/rmspace/main.py:14 | a run followed by a character other than a line feed (a carriage return, say) is kept |
| Rmspace.FormatStrDropsTrailingRun | bundled/libs/rmspace/main.py:14 | a run followed by a line feed or by the end is dropped |
| Rmspace.FormatStrClean | bundled/libs/rmspace/main.py:72-75 | text the pattern finds nothing in is returned unchanged |
| Rmspace.FormatStrUnchanged | bundled/libs/rmspace/main.py:95-98 | the result equals the input exactly when the pattern does not occur, which is the early-return test of `format_file` |
| Rmspace.FormatStrIdempotent | bundled/libs/rmspace/main.py:72-75 | stripping twice is stripping once |

## Left out

- `is_valid_python` (`ast.parse`) is a parameter `valid: string -> bool` of `FormatCode` and `FormatCodeAsWritten`. The Python grammar is not modelled.
- `format_file` in compactify and in rmspace, the command-line entry points (`main.py` and rmspace's `_parse_args`, `_iter_files`, `_is_text_encoded`, `main`), and all file reading and writing are left out. They are I/O around the modelled functions. Rmspace's early return when the pattern does not match is stated by `FormatStrUnchanged`.
- `format_str` with a pattern other than the default is left out. Only the default pattern `( |\t)+(?=$|\n)` is modelled, since arbitrary regular expressions would need a regex engine.
- The language-server handlers, pygls documents, workspace settings, `sys.path` handling, logging (the server's `log_to_output` and compactify's `logger.debug` at `core.py:140` and `core.py:156`) and `lru_cache` are left out. Logging does not change any result. The cache does not change results. The document is its source string.
- `pyrefact.format_code` (`server.py:145`) is an external formatter and is not part of this model. Neither are the two `re.sub` calls that strip blank lines (`server.py:152-153`). The padding takes the formatted text as a parameter.
- The whole-document branch of `_formatting_helper` (`server.py:155-160`) builds an edit without padding. It is left out with the other LSP types.
- The `IndexError` of `_count_newlines_at_start_end` on an empty text, and the `None` from `_get_line_endings`, are modelled as `None` of an `Option`. The exception itself is not modelled.
- Whitespace and line breaks are restricted to their ASCII members. `\s`, `str.strip` and `str.splitlines` also treat some non-ASCII characters (U+0085, U+2028 and others) as whitespace or breaks; those are not modelled.
- `_merge_lines` takes any group; `Compactify.LineList.MergeLines` requires a non-empty, strictly ascending group of valid indices whose first line is non-empty. That is what `_group_matching_lines` always passes, and the source would raise on an empty first line.
- `Grouping.GroupsWellFormed` is stated for `min_group_size >= 1`. With a minimum of 0 or less, the seeding empty group also passes the filter, which `Grouping.GroupMatchingLines` models exactly.
- `Grouping.GroupsExactly` is stated for `min_group_size >= 1` for the same reason: below that, the empty seed group is returned as well, and it is not a run.
- `Compactify.FormatCode` is not proved idempotent (`format_code(format_code(x)) == format_code(x)`). A second run re-splits the joined text and needs every pass to be a fixed point on the first run's output. `Merging.MergePassIdempotent` proves this for the merge pass alone. The fusion and de-indent passes are not proved to be fixed points. The as-written de-indent can delete code (see Findings), so the as-written version need not be idempotent at all. Line-count monotonicity is proved by `Compactify.CompactedShrinks`.
- `generate_examples.py`, the tests and `compactify/main.py` are not part of this model.

## Findings

| source | as written | input that shows it | evidently intended | confidence | as-written member | corrected member |
|---|---|---|---|---|---|---|
| bundled/libs/compactify/core.py:155 | the final check is `is_valid_python(source)`, which already passed at line 139, so the formatted text is never checked | the source `")\n)"` with a check that accepts only it: it is compacted to `"))"`, which the check rejects, and `"))"` is returned | check `new_source`, and return `source` when the new text is invalid | high; not executed | Compactify.FormatCodeAsWritten, Compactify.FormatCodeAsWrittenReturnsRejected | Compactify.FormatCode |
| bundled/libs/compactify/core.py:107-115 | cuts from several over-indented lines accumulate in `deindents[j]`, and `lines[i][deindent:]` removes them whole even past the line's indentation | lines `"a"`, nine spaces, and nine spaces plus `"b"`: the last line has indent 9 and is cut by 5 + 5 = 10, which deletes `b` | limit each cut to the line's indentation, so that only whitespace is removed | high; not executed | Deindent.DeindentedAsWritten, Deindent.DeindentedAsWrittenDropsCode, Compactify.LineList.RemoveExcessiveIndent | Deindent.Deindented, Deindent.DeindentedKeepsText, Compactify.LineList.RemoveExcessiveIndentCapped |
| bundled/tool/server.py:164 | `_get_line_endings(document.source)` receives a string, so `lines[0]` is its first character and CRLF is never detected | the document `"x\r\n\r\na"` and the range (1,0)–(3,0), which selects `"\r\na"`; formatted to `"a"`, the padding prepends `"\n"`, mixing a bare LF into a CRLF document | detect the terminator from `document.source.splitlines(keepends=True)`, as `_match_line_endings` does at line 189 | medium; not executed | Server.PadRangeAsWritten, Server.PadRangeAsWrittenAddsBareLf | Server.PadRange, Server.PadRangeKeepsCrlf |
