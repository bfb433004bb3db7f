# git-fix-whitespace in Dafny

A model of `git_fix_whitespace/git_fix_whitespace.py`. The program fixes whitespace errors in the
lines a working tree adds relative to the last commit, following git's `core.whitespace` rules.
The model has four parts, which run in this order:

- **Line sanitizers.** blank-at-eol, cr-at-eol, space-before-tab, indent-with-non-tab and
  tab-in-indent each rewrite one line. The last three are guarded by the regular expression
  `^(\s+)([^\s]+)$`.
- **`sanitize_line`.** The enabled sanitizers are folded left over a line.
- **Configuration (`main`).** The `core.whitespace` tokens are read into the rule table. Then
  come the conflict check, the trailing-space shorthand and the command-line overrides. Last,
  the sanitizers are picked in a fixed order.
- **`sanitize_diff`.** A unified diff is read into a map from line number to new line text. The
  file is renamed to `<path>.orig`, and the original path is written anew from the backup's
  lines, with the map merged in.

The Dafny modules are:

- `Text`: the Python 2 string primitives the program relies on.
- `Sanitizers`, `Pipeline`, `Config`, `Diff`: one module per part above.
- `Workspace`: the working tree as a class whose `files` map the methods update.

Every loop of the source is a method proved equal to the function that specifies it:

- `Sanitizers.CountIndentTabs` (called by `Sanitizers.IndentWithNonTabSanitizer`), for the counters of indent_with_non_tab_sanitizer;
- `Config.ReadWhitespaceSetting`, for the token loop;
- `Diff.CollectLineChanges`, for the `line_changes` loop of sanitize_diff;
- `Diff.RewriteLines`, for the streaming rewrite loop.

The appends that build the sanitizer list (`Config.BuildSanitizers`) and `main` itself
(`Workspace.WorkingTree.FixWhitespace`) are methods too, proved equal to their functions.

Python 2 semantics modelled:

- `\s`, `str.isspace`, `strip()` and `int()` all use the six ASCII whitespace characters.
  `int()` also skips whitespace between the sign and the digits, as CPython 2.7 does
  (`"- 4"` reads as -4).
- The regex `$` also matches before one final `'\n'`.
- `expandtabs` resets its column at `'\n'` and `'\r'`, and drops tabs when the width is not
  positive.
- Iterating over a file opened in binary mode gives lines that keep their `'\n'`.
- Every sanitizer is a total function of an integer tab width. Properties that need tab stops
  are stated for positive widths.

Where the code and its documented intent differ, the model follows the code:

- blank-at-eol strips only spaces (`rstrip(' ')`). A trailing tab survives
  (`Sanitizers.BlankAtEolExamples`).
- The guard of the indentation sanitizers requires everything after the leading whitespace to
  be free of whitespace. A line such as `"    foo bar"` is never re-indented.
- Every token that contains `tabwidth` sets the width to the integer after its last `=`. The
  first token that raises ends the loop, and the updates made before it stay.
- The trailing-space shorthand is expanded before the command line is applied. So
  `--trailing-space True` switches nothing on (`Config.CliTrailingSpaceIsInert`).
- The command line can switch on both tab-in-indent and indent-with-non-tab: the conflict check
  only sees the configuration (`Config.CliBypassesConflictCheck`).
- blank-at-eof is never put in the sanitizer list.
- cr-at-eol runs after blank-at-eol, so `"abc \r"` becomes `"abc "`
  (`Pipeline.CrAtEolExposesSpace`).
- indent-with-non-tab rounds a partial group of spaces up to a whole tab. At a positive width
  the indentation can get wider; it never gets narrower (`Sanitizers.IndentWithNonTabWidens`).
  With no width set, or a width of 0, no group of spaces ever closes, so a whole run of spaces
  becomes a single tab (see Findings).
- A hunk header without a line count (`@@ -1 +1 @@`) makes the whole file be skipped.
- Every recorded line ends in `'\n'`, even one that replaces a last line which had none.
- The rewritten file is a regular file with the backup's permission bits, the process umask cleared.

## Model

| member | source | states |
|---|---|---|
| Text.JoinSplitOn | git_fix_whitespace/git_fix_whitespace.py:122 | splitting a diff on '\n' loses nothing: joining the pieces gives the text back |
| Text.SplitOnJoin | git_fix_whitespace/git_fix_whitespace.py:122 | pieces free of '\n', joined and split again, come back unchanged |
| Text.ParseIntDecimal | git_fix_whitespace/git_fix_whitespace.py:194 | `int()` reads back the decimal rendering of any integer, with or without a minus sign |
| Text.ParseInt | git_fix_whitespace/git_fix_whitespace.py:194 | `int()` accepts only a stripped text that starts with a sign or a digit and ends with a digit; a negative value needs a leading '-' |
| Text.ParseIntAccepts | git_fix_whitespace/git_fix_whitespace.py:194 | every text of the form blanks, optional sign, blanks, digits, blanks parses, to the digits' value, negated after '-' |
| Text.StripPadded | git_fix_whitespace/git_fix_whitespace.py:191 | `strip()` of a text padded with whitespace on both sides gives back the text between |
| Text.ParseIntBlankAfterSign | git_fix_whitespace/git_fix_whitespace.py:194 | blanks may follow the sign: "- 4" reads -4 and "+\t12" reads 12 |
| Text.ConcatSplitLines | git_fix_whitespace/git_fix_whitespace.py:157 | the lines read from a binary file, each keeping its '\n', concatenate to the file's bytes |
| Text.RStripUnique | git_fix_whitespace/git_fix_whitespace.py:24 | `rstrip(c)` is the only prefix not ending in c whose removed tail is all c |
| Sanitizers.BlankAtEol | git_fix_whitespace/git_fix_whitespace.py:22-24 | the result is a prefix of the line, does not end in a space, only spaces were removed, and every non-space character survives |
| Sanitizers.CrAtEol | git_fix_whitespace/git_fix_whitespace.py:104-106 | the same for carriage returns: exactly the maximal trailing run of '\r' is removed |
| Sanitizers.BlankAtEolFixes | git_fix_whitespace/git_fix_whitespace.py:22-24 | a line not ending in a space is unchanged; the sanitizer is idempotent |
| Sanitizers.CrAtEolFixes | git_fix_whitespace/git_fix_whitespace.py:104-106 | a line not ending in '\r' is unchanged; the sanitizer is idempotent |
| Sanitizers.BlankAtEolExamples | tests/test_sanitizers.py:4-39 | the test cases: "", " ", "     " become ""; "abc def" followed by any number of spaces becomes "abc def"; a trailing tab stays |
| Sanitizers.LeadingSplit | git_fix_whitespace/git_fix_whitespace.py:16 | a match splits the line (less one final '\n') into a non-empty whitespace run and a non-empty whitespace-free rest |
| Sanitizers.LeadingSplitComplete | git_fix_whitespace/git_fix_whitespace.py:16 | every such split of a line is the match found, so the guard matches exactly those lines |
| Sanitizers.GuardRejects | tests/test_sanitizers.py:44-72 | "", " ", "  \t", "  \t ", "abc" and "abc\tefg" do not match the guard, so every indentation sanitizer leaves them alone |
| Sanitizers.ExpandTabsIndent | git_fix_whitespace/git_fix_whitespace.py:44 | replacing a leading run by its expansion keeps the rest; at a positive width the new run has no tab, reaches the same column, and is exactly that many spaces when the old run held only spaces and tabs |
| Sanitizers.ExpandFromShape | git_fix_whitespace/git_fix_whitespace.py:44 | expanding from any column leaves no tab at a positive width, keeps a text without tabs, and turns blanks into spaces only |
| Sanitizers.ExpandTabs | git_fix_whitespace/git_fix_whitespace.py:96 | `expandtabs` leaves no tab at a positive width, keeps a text without tabs, and makes a single line as long as the columns it takes |
| Sanitizers.ExpandFromChar | git_fix_whitespace/git_fix_whitespace.py:44 | a tab becomes the spaces up to the next tab stop (nothing at a width of 0 or less); every other character, '\v', '\f' and '\r' included, is copied |
| Sanitizers.ExpandFromAppend | git_fix_whitespace/git_fix_whitespace.py:44 | at a positive width, expanding two texts in a row expands the second from the column the first reached; with ExpandFromChar this fixes the whole output |
| Sanitizers.ExpandFromAnyColumn | git_fix_whitespace/git_fix_whitespace.py:96 | at a width of 0 or less the starting column does not change the expansion |
| Sanitizers.ExpandFromNoWidth | git_fix_whitespace/git_fix_whitespace.py:96 | at a width of 0 or less, expanding two texts in a row expands each on its own |
| Sanitizers.ExpandFromLength | git_fix_whitespace/git_fix_whitespace.py:44 | without line breaks, tab expansion ends at the column the text reaches |
| Sanitizers.ExpandFromKeepsColumn | git_fix_whitespace/git_fix_whitespace.py:44 | the expanded text reaches the same column as the original |
| Sanitizers.SpaceBeforeTab | git_fix_whitespace/git_fix_whitespace.py:27-44 | the line changes only when the guard matches and its run starts with spaces and then a tab; the run is then replaced by its `expandtabs`, at any width, and the rest kept |
| Sanitizers.SpaceBeforeTabExpands | git_fix_whitespace/git_fix_whitespace.py:40-44 | when it fires, the line is the expanded leading run followed by the rest |
| Sanitizers.SpaceBeforeTabKeepsVerticalTab | git_fix_whitespace/git_fix_whitespace.py:40-44 | " \t\vabc" at width 8 becomes eight spaces, then the vertical tab, then "abc" |
| Sanitizers.SpaceBeforeTabNeedsLeadingSpace | git_fix_whitespace/git_fix_whitespace.py:40-42 | a leading run that starts with a tab is left alone |
| Sanitizers.SpaceBeforeTabRewrites | git_fix_whitespace/git_fix_whitespace.py:40-44 | when it fires on spaces and tabs, the run becomes as many spaces as the column it reached |
| Sanitizers.SpaceBeforeTabExamples | tests/test_sanitizers.py:74-78 | " \tabc" becomes eight spaces and "abc" |
| Sanitizers.SpaceBeforeTabLeavesTabFirst | tests/test_sanitizers.py:86-96 | "\tabc" and "\t  abc" are unchanged |
| Sanitizers.TabInIndent | git_fix_whitespace/git_fix_whitespace.py:80-96 | the line changes only when the guard matches and its run holds a tab; the whole run is then replaced by its `expandtabs`, at any width, and the rest kept |
| Sanitizers.TabInIndentRewrites | git_fix_whitespace/git_fix_whitespace.py:93-96 | when it fires on spaces and tabs, the run becomes as many spaces as the column it reached |
| Sanitizers.TabInIndentExamples | tests/test_sanitizers.py:188-204 | " abc" is unchanged; " \tabc" becomes eight spaces and "abc" |
| Sanitizers.TabInIndentExample3 | tests/test_sanitizers.py:194-210 | "\tabc" becomes 8 spaces and "abc"; a tab and 8 spaces before "abc" become 16 spaces |
| Sanitizers.TabInIndentExample2 | tests/test_sanitizers.py:212-216 | a tab, ten spaces and a tab before "abc" become 24 spaces |
| Sanitizers.IndentWithNonTab | git_fix_whitespace/git_fix_whitespace.py:47-77 | a run holding a space becomes tabs only, as many as the group-by-group count (each tab one, each whole group of tab-width spaces one, spaces before a tab short of a group dropped, trailing spaces rounded up); the rest is kept; a run without a space is left alone |
| Sanitizers.IndentWithNonTabSanitizer | git_fix_whitespace/git_fix_whitespace.py:60-77 | the guard and then the counting loop over the leading run produce the line IndentWithNonTab describes (tabs for a run holding a space, otherwise unchanged) |
| Sanitizers.CountIndentTabs | git_fix_whitespace/git_fix_whitespace.py:63-75 | the loop over the leading run, with its space and tab counters, yields IndentTabCount, which equals the group-by-group count |
| Sanitizers.IndentTabCount | git_fix_whitespace/git_fix_whitespace.py:63-75 | at a positive width the counter loop's tab count equals the group-by-group count; with the width unset, any run of spaces alone gives one tab |
| Sanitizers.SpacesWithoutWidth | git_fix_whitespace/git_fix_whitespace.py:63-75 | with the width unset no group of spaces is ever closed: spaces only pile up |
| Sanitizers.UnsetWidthMiscount | git_fix_whitespace/git_fix_whitespace.py:60-77 | with the width unset, 16 spaces before "x" become "\tx"; at width 8 they become "\t\tx" |
| Sanitizers.IndentWithNonTabRewrites | git_fix_whitespace/git_fix_whitespace.py:60-77 | when it fires, the line is the group count of tabs followed by the rest |
| Sanitizers.IndentWithNonTabWidens | git_fix_whitespace/git_fix_whitespace.py:63-77 | the new tabs reach at least the column the old run of spaces and tabs reached |
| Sanitizers.IndentWithNonTabExample1 | tests/test_sanitizers.py:125-129 | " abc" becomes "\tabc" |
| Sanitizers.IndentWithNonTabLeavesTabsAlone | tests/test_sanitizers.py:131-135 | "\tabc" is unchanged |
| Sanitizers.IndentWithNonTabExample4 | tests/test_sanitizers.py:137-141 | " \tabc" becomes "\tabc": a partial group before a tab is dropped |
| Sanitizers.IndentWithNonTabExample2 | tests/test_sanitizers.py:143-147 | a tab and eight spaces before "abc" become two tabs |
| Sanitizers.IndentWithNonTabExample3 | tests/test_sanitizers.py:149-153 | a tab, ten spaces, a tab and a space before "abc" become four tabs |
| Sanitizers.IndentWithNonTabWholeGroup | git_fix_whitespace/git_fix_whitespace.py:71-73 | eight spaces before "x" become one tab at width 8 |
| Pipeline.SanitizeLineAppend | git_fix_whitespace/git_fix_whitespace.py:109-110 | folding over two lists in turn is folding over their concatenation |
| Pipeline.SanitizeLine | git_fix_whitespace/git_fix_whitespace.py:109-110 | a list of blank-at-eol and cr-at-eol alone only cuts the line short: the result is a prefix of it |
| Pipeline.SanitizeLineClean | git_fix_whitespace/git_fix_whitespace.py:109-110 | a line every sanitizer in the list leaves alone comes out unchanged; in particular the empty list is the identity |
| Pipeline.KeepsNoTrailingSpace | git_fix_whitespace/git_fix_whitespace.py:22-96 | every sanitizer but cr-at-eol keeps a line that does not end in a space that way |
| Pipeline.NoTrailingSpaceAfter | git_fix_whitespace/git_fix_whitespace.py:109-110 | a fold without cr-at-eol keeps a line that does not end in a space that way |
| Pipeline.BlankAtEolFirstHolds | git_fix_whitespace/git_fix_whitespace.py:264-265 | with blank-at-eol first and no cr-at-eol after it, no sanitized line ends in a space |
| Pipeline.CrAtEolExposesSpace | git_fix_whitespace/git_fix_whitespace.py:279-280 | blank-at-eol then cr-at-eol turns "abc \r" into "abc ", which still ends in a space |
| Pipeline.DefaultPipelineKeepsCleanLine | git_fix_whitespace/git_fix_whitespace.py:109-110 | the default list leaves the clean line "\tabc" alone |
| Config.ParseToken | git_fix_whitespace/git_fix_whitespace.py:191-199 | a stripped token with "tabwidth" in it sets the width to `int()` of its last '='-piece when that piece parses, and raises exactly when it does not; an empty token raises; "-x" sets x false and any other token sets itself true |
| Config.ResolveTokensAppend | git_fix_whitespace/git_fix_whitespace.py:190-199 | tokens apply left to right: the loop over a concatenation is the loop over each part in turn |
| Config.ResolveTokensStops | git_fix_whitespace/git_fix_whitespace.py:188-201 | the first token that raises ends the loop; what earlier tokens did stays and later tokens have no effect |
| Config.ResolveTokensLastWins | git_fix_whitespace/git_fix_whitespace.py:190-199 | an accepted token that names a rule decides its value when every token after it raises, sets the width or names another rule |
| Config.ResolveTokensKeepsTabWidth | git_fix_whitespace/git_fix_whitespace.py:193-194 | tokens that do not mention the width leave it as it was |
| Config.ResolveTokensKeepsFlag | git_fix_whitespace/git_fix_whitespace.py:190-199 | tokens that do not set a rule leave its value as it was |
| Config.ResolveTokensProvenance | git_fix_whitespace/git_fix_whitespace.py:188-201 | the loop drops no rule; each rule and the width keep their earlier value or hold what an accepted token set |
| Config.ResolveWhitespace | git_fix_whitespace/git_fix_whitespace.py:188-201 | every rule of the default table still has a value after the loop |
| Config.ReadWhitespaceSetting | git_fix_whitespace/git_fix_whitespace.py:179-201 | the in-place token loop, with its early exit, yields the defaults updated by the tokens up to the first failing one |
| Config.Finalize | git_fix_whitespace/git_fix_whitespace.py:203-214 | fails exactly when both tab-in-indent and indent-with-non-tab are on; otherwise trailing-space switches on blank-at-eol and blank-at-eof, and no other rule or the width changes |
| Config.ApplyOverrides | git_fix_whitespace/git_fix_whitespace.py:217-261 | a switch given on the command line decides its rule; every other rule keeps its configured value |
| Config.CliKeepsBlankAtEof | git_fix_whitespace/git_fix_whitespace.py:217-261 | no command-line switch names blank-at-eof, so the command line leaves that rule as configured |
| Config.TabWidthUnsetByDefault | git_fix_whitespace/git_fix_whitespace.py:209 | with no setting the width is None whatever the command line says, while the default sanitizers include space-before-tab and " \tabc" reaches its tab expansion |
| Config.EffectiveTabWidth | git_fix_whitespace/git_fix_whitespace.py:209 | the width is `--tabwidth` if given, else the configured one, else 8 |
| Config.EffectiveTabWidthDefault | git_fix_whitespace/git_fix_whitespace.py:19 | a setting that never mentions the width gives 8 unless the command line sets it |
| Config.SelectRules | git_fix_whitespace/git_fix_whitespace.py:263-280 | a sanitizer is in the list exactly when its rule is on, each at most once, in the order blank-at-eol, space-before-tab, indent-with-non-tab, tab-in-indent, cr-at-eol |
| Config.BuildSanitizers | git_fix_whitespace/git_fix_whitespace.py:263-280 | appending one sanitizer per enabled rule builds that list |
| Config.BlankAtEofNeverSelected | git_fix_whitespace/git_fix_whitespace.py:276-277 | the blank-at-eof switch never changes the list |
| Config.SelectedRulesStripTrailingSpace | git_fix_whitespace/git_fix_whitespace.py:264-280 | with blank-at-eol on and cr-at-eol off, no sanitized line ends in a space |
| Config.Configure | git_fix_whitespace/git_fix_whitespace.py:179-280 | the run is refused exactly when the configuration has both exclusive rules on, whatever the command line says; otherwise a sanitizer is chosen exactly when the command line, or failing that the finalized configuration, enables its rule |
| Config.CliBypassesConflictCheck | git_fix_whitespace/git_fix_whitespace.py:203-261 | the command line can enable both tab-in-indent and indent-with-non-tab, and both sanitizers then run |
| Config.CliTrailingSpaceIsInert | git_fix_whitespace/git_fix_whitespace.py:212-261 | `--trailing-space True` does not switch blank-at-eol on |
| Config.DefaultSetup | git_fix_whitespace/git_fix_whitespace.py:179-187 | with no setting and no options, blank-at-eol then space-before-tab run with 8-column tabs |
| Diff.PathInfo | git_fix_whitespace/git_fix_whitespace.py:126 | the path found is non-empty, holds no line break, and follows a "b/" in the line |
| Diff.PathInfoLeftmost | git_fix_whitespace/git_fix_whitespace.py:126 | `search` semantics in both directions: nothing is found exactly when no position of the line holds "b/" and a character other than a line break, and otherwise the path is read at the leftmost such position, up to the first line break |
| Diff.PathInfoHeader | git_fix_whitespace/git_fix_whitespace.py:14 | the "+++ b/<path>" line gives back its path |
| Diff.HunkStartHeader | git_fix_whitespace/git_fix_whitespace.py:137-142 | the header "@@ -a,b +n,m @@" gives the start line n |
| Diff.HunkHeader | git_fix_whitespace/git_fix_whitespace.py:136-142 | git's header line starts with "@@", holds no line break, and `LINE_INFO_REGEX` reads n from it |
| Diff.HunkStartNeedsCount | git_fix_whitespace/git_fix_whitespace.py:137-140 | "@@ -1 +1 @@" has no match, so the file is skipped |
| Diff.HunkStartLeftmost | git_fix_whitespace/git_fix_whitespace.py:137-142 | the header search finds nothing exactly when no position matches; otherwise it reads the start line at the leftmost match |
| Diff.CollectLineChanges | git_fix_whitespace/git_fix_whitespace.py:134-148 | the loop filling `line_changes`, with its early returns, computes the scan of the patch lines |
| Diff.StepKeeps | git_fix_whitespace/git_fix_whitespace.py:135-148 | one pass drops no change, records at most the line at the current number, and keeps the number set once a header set it |
| Diff.ScanLinesKeeps | git_fix_whitespace/git_fix_whitespace.py:135-148 | the whole loop drops no change and keeps the number set once a header set it |
| Diff.ScanLinesAppend | git_fix_whitespace/git_fix_whitespace.py:135-148 | the loop over two runs of lines is the loop over the second from where the first left off |
| Diff.ScanHeaderStep | git_fix_whitespace/git_fix_whitespace.py:136-142 | a hunk header met in any scanning state sets the number to its start, or skips the file when it has none |
| Diff.ScanCarries | git_fix_whitespace/git_fix_whitespace.py:143-148 | changes recorded before a run of lines come out of it as they went in, except where the run records a line |
| Diff.ScanHunkShape | git_fix_whitespace/git_fix_whitespace.py:135-148 | within a hunk starting at n, the scan goes on, the line number moves past the '+' and ' ' lines, exactly the numbers n up to n plus their count are added, and changes at other numbers stay |
| Diff.ScanHunkEntry | git_fix_whitespace/git_fix_whitespace.py:143-148 | within a hunk starting at n, each '+' or ' ' line is recorded at n plus the number of such lines before it, with its entry; '-' and other lines take no number |
| Diff.ScanFreshHunk | git_fix_whitespace/git_fix_whitespace.py:141-148 | a hunk from line n records exactly the numbers n up to n plus its count of '+' and ' ' lines, an added line sanitized plus '\n' and a context line verbatim plus '\n' |
| Diff.HunkChangesOfLines | git_fix_whitespace/git_fix_whitespace.py:141-148 | a hunk on its own records its p-th counted line at its start plus p, and nothing else |
| Diff.OverlayLastWins | git_fix_whitespace/git_fix_whitespace.py:144-147 | over several hunks a line number any hunk records is recorded, with the entry of the last hunk that records it |
| Diff.ScanOneHunk | git_fix_whitespace/git_fix_whitespace.py:135-148 | one hunk scanned from any state lays its own changes over the earlier ones |
| Diff.ScanHunks | git_fix_whitespace/git_fix_whitespace.py:135-148 | hunks scanned in turn from any state never stop the scan and lay their changes over the earlier ones in order |
| Diff.ScanFirstStop | git_fix_whitespace/git_fix_whitespace.py:135-148 | the scan ends at the first line that stops it: a bad hunk header skips the file, a counted line before any header raises |
| Diff.ScanNoStop | git_fix_whitespace/git_fix_whitespace.py:135-148 | with no stopping line the scan runs to the end |
| Diff.ScanNeverShort | git_fix_whitespace/git_fix_whitespace.py:135-148 | the scan stops only at a bad hunk header or at a counted line before any header |
| Diff.ParseDiff | git_fix_whitespace/git_fix_whitespace.py:118-148 | a change is skipped as deleted or renamed exactly when it is one; a diff without a line break raises; the file is skipped for want of a path exactly when the second diff line has no match (with `Diff.PathInfoLeftmost`); a rewrite names the path found there |
| Diff.ParseSingleHunk | git_fix_whitespace/git_fix_whitespace.py:118-148 | a one-hunk diff as git writes it rewrites its path with the changes of that hunk scanned from its start line |
| Diff.ParseDiffHunks | git_fix_whitespace/git_fix_whitespace.py:118-148 | a diff of any number of hunks, as git writes it, rewrites its path with the changes of all hunks, a later hunk winning on a shared line |
| Diff.ParseDiffFirstStop | git_fix_whitespace/git_fix_whitespace.py:122-148 | a change whose diff names its file ends with the outcome of the first stopping hunk line |
| Diff.ParseDiffNoStop | git_fix_whitespace/git_fix_whitespace.py:122-148 | a change whose diff names its file and has no stopping line rewrites that file |
| Diff.MergeFrom | git_fix_whitespace/git_fix_whitespace.py:156-159 | the rewritten file has as many lines as the backup, and line i is the change recorded for i if any, else the original line |
| Diff.Merge | git_fix_whitespace/git_fix_whitespace.py:156-159 | the file keeps its number of lines, and line i becomes the change recorded at number i + 1 if any, else stays |
| Diff.MergeNoChanges | git_fix_whitespace/git_fix_whitespace.py:156-159 | an empty change map gives the lines back |
| Diff.MergeAgreeing | git_fix_whitespace/git_fix_whitespace.py:158 | changes that repeat the lines they replace change nothing |
| Diff.MergeOutOfRange | git_fix_whitespace/git_fix_whitespace.py:158 | changes recorded past the end of the file or before line 1 are dropped |
| Diff.MergeIdempotent | git_fix_whitespace/git_fix_whitespace.py:156-159 | merging the same changes a second time changes nothing more |
| Diff.RewriteWithoutChangesKeepsBytes | git_fix_whitespace/git_fix_whitespace.py:156-159 | with no changes the bytes written are the bytes read |
| Diff.MergeScenario | git_fix_whitespace/git_fix_whitespace.py:143-159 | "foo   " added at line 3 of a five-line file, with blank-at-eol, makes line 3 "foo\n" and keeps the others |
| Diff.RewriteLines | git_fix_whitespace/git_fix_whitespace.py:156-159 | the streaming loop writes exactly the merged lines |
| Workspace.CreatedStat | git_fix_whitespace/git_fix_whitespace.py:152-153 | the rewritten file is a regular file whose permission bits are CreatedMode's |
| Workspace.CreatedMode | git_fix_whitespace/git_fix_whitespace.py:152-153 | the new file's mode has only permission bits, none of the umask's and none the original lacked, and keeps every other permission bit of the original |
| Workspace.CreatedModeWithoutUmask | git_fix_whitespace/git_fix_whitespace.py:152-153 | with no umask the new file gets exactly the original's permission bits |
| Workspace.BackupPath | git_fix_whitespace/git_fix_whitespace.py:132 | the backup path extends the path and differs from it |
| Workspace.ApplyChange | git_fix_whitespace/git_fix_whitespace.py:113-162 | a skip or a crash leaves the tree alone; a missing file crashes; a rewrite moves the original to `<path>.orig`, writes the merged bytes at the path as a regular file with the created permission bits, and touches no other file |
| Workspace.Run | git_fix_whitespace/git_fix_whitespace.py:165-287 | a run is refused, touching nothing, exactly when the configuration enables both exclusive rules |
| Workspace.RunChanges | git_fix_whitespace/git_fix_whitespace.py:286-287 | a run over the changes removes no file, and a crash needs at least one change |
| Workspace.RunChangesAppend | git_fix_whitespace/git_fix_whitespace.py:286-287 | changes that do not crash compose: the run over a concatenation is the run over each part in turn |
| Workspace.RunChangesStopsAtCrash | git_fix_whitespace/git_fix_whitespace.py:286-287 | the change that raises ends the run; later changes are never applied |
| Workspace.RewriteWithoutChanges | git_fix_whitespace/git_fix_whitespace.py:150-159 | a diff that records no line changes writes the file back byte for byte |
| Workspace.RewriteOfCleanFile | git_fix_whitespace/git_fix_whitespace.py:156-159 | when every recorded change equals the line on disk, the file is written back byte for byte |
| Workspace.RewriteAddsFinalNewline | git_fix_whitespace/git_fix_whitespace.py:147 | a last line "abc" with no terminator, reached by a hunk, is written as "abc\n" |
| Workspace.WorkingTree.SanitizeDiff | git_fix_whitespace/git_fix_whitespace.py:113-162 | the tree and the outcome after the call are those of ApplyChange on the tree before it |
| Workspace.WorkingTree.FixWhitespace | git_fix_whitespace/git_fix_whitespace.py:165-287 | the tree and the result after the run are those of Run on the tree before it |

## Findings

| source | as written | input that shows it | evidently intended | confidence | as-written member | corrected member |
|---|---|---|---|---|---|---|
| git_fix_whitespace/git_fix_whitespace.py:209 | `TAB_WIDTH = ws_config.get('tabwidth')` is None when no `tabwidth` token is configured; space-before-tab and tab-in-indent pass it to `expandtabs`, and Python 2's `expandtabs(None)` raises TypeError | default configuration (no `core.whitespace`), an added line " \tabc" | keep the default width 8 of line 19 when no width is configured | high, not executed | Config.TabWidthUnsetByDefault | Config.EffectiveTabWidth |
| git_fix_whitespace/git_fix_whitespace.py:209 | the width is taken before the command line is parsed, so `--tabwidth` (lines 253-258) has no effect | `--tabwidth 4` with the default configuration: the width stays unset | `--tabwidth` sets the width the sanitizers use, as its help text says | medium, not executed | Config.TabWidthUnsetByDefault | Config.EffectiveTabWidth |
| git_fix_whitespace/git_fix_whitespace.py:71 | with the width unset, indent-with-non-tab compares `spaces == None`, which is never true in Python 2, so no group of spaces is ever closed and a whole run of spaces becomes one tab; no error is raised | `core.whitespace = indent-with-non-tab`, an added line of 16 spaces then "x": it becomes "\tx" | with the default width 8 the line becomes "\t\tx" | high, not executed | Sanitizers.UnsetWidthMiscount | Config.EffectiveTabWidth |

## Left out

- GitPython is not part of this model: finding the repository, `rev-parse` and its error exit,
  reading the configuration, and diffing HEAD. The `core.whitespace` value is a parameter
  (`None` when unset or unreadable). The changes arrive as a sequence of change records: the
  added files, then the modified ones.
- argparse is reduced to its result. `CliArgs` holds the switches actually given, as booleans,
  and `--tabwidth`. Option parsing errors and `ast.literal_eval` values that are not booleans
  are not modelled.
- `os.path.join` with the repository root is not modelled: paths are repository-relative keys
  of the tree.
- File-system errors other than renaming a missing file are not modelled: permissions, a
  failed open, a partial write. Neither are file handles.
- The unset width is not an outcome of the pipeline model: `Workspace.Run` uses the corrected
  width (see Findings). With the width unset, space-before-tab and tab-in-indent raise TypeError
  in `expandtabs`, which the model does not represent, and indent-with-non-tab silently turns
  every run of leading spaces into a single tab, which `Sanitizers.UnsetWidthMiscount` shows on
  the sanitizer alone (the unset width is a negative width there).
- blank_at_eof_sanitizer (lines 99-101) is an unimplemented identity that is never put in the
  list. It has no member; `Config.BlankAtEofNeverSelected` states that the switch has no effect.
- Unicode is not modelled: characters stand for the bytes of Python 2 byte strings.
- The older root-level `git_fix_whitespace.py` prototype and `setup.py` are not part of this
  model.
- Sanitizers.IndentWithNonTab: the tab count is stated only for a positive width, and for a run of
  spaces alone at an unset width (`Sanitizers.IndentTabCount`).
