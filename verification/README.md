# Verification of diffctx

diffctx turns a git diff into a review document that fits a token budget. This
project models the parts of it that decide what the document says, and proves
that they do what they promise. `dafny verify dfyconfig.toml` checks all of it.

| files | what they cover |
|---|---|
| `Text`, `Runs`, `Totals`, `Sorting`, `Ranking`, `Scheduling` | strings as the program's library reads and orders them; runs of a step function; sums by class; sorting a set of keys; the best few of a set; greedy schedules |
| `ChangeClass`, `UnifiedDiff`, `DiffRevert`, `DiffRoundTrip`, `ChangedLines` | the reader of unified diffs, undoing its runs, a printer of such diffs (the "Diff -u or -U Output Format" of the POSIX `diff` utility, with git's file headers), and the proof that the first two undo the third |
| `Budget`, `BudgetRuns`, `BudgetOrder`, `Document` | cutting a document to its budget: the step, whole runs, the order things go in, and the loops that change the document in place |
| `Yaml`, `YamlReader`, `PathLine` | the YAML strings and the path lines it writes, with readers for both |
| `Interval`, `Excerpt`, `Seeds` | the index of line spans, the windows of an excerpt, the fragments a change seeds and their weights |
| `Quotient`, `QuotientLaws`, `Coupling` | grouping the fragment graph, and the coupling of the groups |
| `Sharding`, `Stats` | spreading repositories over shards; adjusting p-values for multiple tests |
| `Canon`, `Spellings`, `Discovery` | one key for many spellings of a name; ranking files by an inverted index |

Each operation that updates variables step by step is a method, and each record
updated in place is a class (`Document`, `ChangedLines`, `IntervalIndex`,
`KeyCache`). Such a method is proved equal to a function of its inputs or old
state, or to a property stated outright, and the laws are lemmas about that
function or property. Where the program leaves an order open (iterating a hash
set or map), the method picks an arbitrary element, so what is proved holds for
every order.

## What does not hold as it stands

Each of these has the exact condition under which it does hold, and an input
where it does not.

- A hunk with an empty side in mid-file, which only a context width of 0
  prints, is read one line too early on that side (`change_class.rs:216-223`
  subtracts once more): `DiffReads`, `ZeroContextMisplaces`.
- A change of type is printed as a deletion and a creation of one path. When
  both have lines nothing is reported of the text before, since the second run
  does not find the old lines where it starts: `TypeChangeRoundTripsIff`,
  `TypeChangeIsLost`.
- An added line that still ends in `\r` once it is read from the new text (a
  second one before the line feed, or one without a line feed) is not found and
  nothing is reported: `DiffRoundTripsIff`, `BareReturnIsNotFound`.
- A string with U+FEFF that needs no escape for another reason is written as a
  literal block, which YAML does not let carry it: `BlockValueReads`,
  `MarkIsUnreadable`.
- Shortening a fragment rewrites line ends, so what is shown then is a prefix
  of what was shown only when no kept line ends in `\r` beyond its line end:
  `HalvedIsPrefixIff` for one step, `RunShowsPrefixesIff` and
  `LargerBudgetShowsPrefixesIff` for whole runs, `CarriageReturnIsLost` for an
  input. Without any condition, it is a prefix up to such characters
  (`LaterShowsFewer`, `LargerBudgetShowsNoLess`).
- Adding an id that is present leaves its span in the list twice: `AddId`,
  `AddedTwice`.
- Reported cohesion and coupling can add up to 1.001: `CohesionAndCoupling`,
  `SharesRoundUpTogether`.
- A one-letter word in Pascal or camel case can run into the next:
  `PascalTokens`, `CamelTokens`, `OneLetterWordsRunTogether`. An upper-case word
  splits where a letter follows a digit: `UpperSeparatedTokens`,
  `LetterAfterDigitSplits`.

## Model

| member | source | states |
|---|---|---|
| ChangeClass.AddLine | crates/diffctx-native/src/change_class.rs:190-215 | one changed body line opens a run if none is open and extends it; the result is the reader state the line-by-line specification gives |
| ChangeClass.HunkTexts | crates/diffctx-native/src/change_class.rs:131-225 | the loop over the lines with its four state variables and the fix-up pass computes the reader specification on every text |
| ChangeClass.Reverted | crates/diffctx-native/src/change_class.rs:274-312 | the loop that undoes the runs computes the specification `RevertedText` on every text and every run list |
| ChangeClass.RevertedIffAligned | crates/diffctx-native/src/change_class.rs:274-312 | for run lists whose lengths match their texts, `reverted` returns a text exactly when that text and the new one agree outside the runs and the runs cut their lines out of both: it accepts nothing else and misses nothing |
| ChangeClass.RevertedReplays | crates/diffctx-native/src/change_class.rs:274-312 | whatever `reverted` accepts, replaying the runs forward on the result gives the new text back |
| ChangeClass.AlignedCuts | crates/diffctx-native/src/change_class.rs:274-312 | in two texts a run list aligns, every run's ranges cut out exactly its removed and its added lines |
| UnifiedDiff.HeaderReads | crates/diffctx-native/src/change_class.rs:127-163 | the `@@` line the printer writes, in every form of its two ranges, is read as the numbers it stands for |
| UnifiedDiff.OpLinesRead | crates/diffctx-native/src/change_class.rs:182-213 | one printed body line, with or without the line that says there is no newline, moves the reader as the edit says, even when the removed text looks like a file header |
| UnifiedDiff.ReadOps | crates/diffctx-native/src/change_class.rs:131-225 | reading any legal hunk layout of an edit script, from any point of it, returns the runs the layout shows |
| DiffRoundTrip.PlainNameReads | crates/diffctx-native/src/change_class.rs:137-140 | a `---` or `+++` name git prints unquoted is read as that path, with or without a tab and a date after it |
| DiffRoundTrip.QuotedNameReads | crates/diffctx-native/src/change_class.rs:137-140 | a name git prints in quotes is read as what it unquotes to, without its prefix, and the name of no file as none |
| DiffRoundTrip.FilesRead | crates/diffctx-native/src/change_class.rs:131-225 | a diff of any number of files is read file by file, each under its own surviving path |
| DiffRoundTrip.DiffReads | crates/diffctx-native/src/change_class.rs:95-125 | the runs read are exactly the maximal change blocks of every script, in order, with `-U0` numbering on both sides, if and only if no hunk has an empty side in mid-file; their lines may end in carriage returns, of which reading takes one off |
| DiffRoundTrip.LayoutIsLegal | crates/diffctx-native/src/change_class.rs:95-98 | at every context width the printer's grouping into hunks is legal, so what is proved of legal layouts is about printed diffs |
| DiffRoundTrip.ContextDoesNotMatter | crates/diffctx-native/src/change_class.rs:95-98 | at every context width of 1 or more and under any headings of the hunks, the same in every file or not, the runs read are the same canonical ones |
| DiffRoundTrip.ZeroContextMisplaces | crates/diffctx-native/src/change_class.rs:216-223 | a diff printed at width 0, whose hunk `@@ -2,0 +3 @@` inserts below line 2, is read by the reader as a run below line 1, where the canonical run stands below line 2: the condition of DiffReads cannot be dropped |
| DiffRevert.CanonicalRevertsIff | crates/diffctx-native/src/change_class.rs:274-312 | undoing the canonical runs of any edit script on any text with as many lines as its new side: it succeeds if and only if every added line is found without the carriage returns at its end, and then gives the kept lines as they are there and the removed ones trimmed |
| DiffRevert.CanonicalReverts | crates/diffctx-native/src/change_class.rs:274-312 | on the new lines, with no carriage return left at their ends, it gives exactly the old lines without theirs, joined and newline-terminated |
| Text.JoinLinesReads | crates/diffctx-native/src/change_class.rs:308-311 | the text before splits at its line breaks into its lines and a last empty one, and is one line break when there are no lines |
| ChangedLines.FromDiff | crates/diffctx-native/src/changed_lines.rs:21-46 | the four collections hold what the whole run list says of each path, in order |
| ChangedLines.ChangedLines.Insert | crates/diffctx-native/src/changed_lines.rs:24-44 | one run more keeps the four collections in step with the run list |
| ChangedLines.ChangedLines.BaseSide | crates/diffctx-native/src/changed_lines.rs:66-85 | answers nothing for an unknown path, and otherwise the text before with the ranges of the removals, or nothing when the runs do not fit; what the ranges are is BaseSideCuts and DiffRoundTripsIff |
| ChangedLines.RunsInWellFormed | crates/diffctx-native/src/change_class.rs:131-225 | every run read from any text has lengths that match its lines, so the soundness results apply to whatever is read |
| ChangedLines.BaseSideCuts | crates/diffctx-native/src/changed_lines.rs:66-85 | for any diff text and any new text: when a base side is reported, replaying the path's runs on it gives the new text; the ranges come in order, and the k-th cuts out of it exactly the k-th removal's lines and is anchored where they stood on the new side, counted without the run's own new-side number: on its first added line, which is found there, or on the line above, or on line 1 |
| ChangedLines.DiffRoundTrips | crates/diffctx-native/src/changed_lines.rs:21-85 | in a printed diff of any number of files, reading, selecting one path and undoing its runs on its new lines, read or trimmed of carriage returns, gives that file's old lines trimmed of theirs, and the base side is that text; no other section of that path may change a line |
| ChangedLines.DiffRoundTripsIff | crates/diffctx-native/src/changed_lines.rs:21-85 | the same for every text with as many lines: something is reported if and only if each added line is found trimmed, and what it is; the ranges are those of the script's blocks that remove something, each anchored by the length of the new side above the block |
| ChangedLines.FileRoundTrips | crates/diffctx-native/src/changed_lines.rs:21-85 | so a file with `\n` or `\r\n` at each line, or both, is undone on its own new text to its old lines, without carriage returns at their ends |
| ChangedLines.BareReturnIsNotFound | crates/diffctx-native/src/change_class.rs:274-312 | an added last line `a\r` without a line feed is not found and nothing is reported |
| ChangedLines.TypeChangeRoundTripsIff | crates/diffctx-native/src/change_class.rs:274-312 | a deletion and then a creation of one path, as a change of type is printed, are undone to the old lines, trimmed of carriage returns, if and only if one of the two has no lines; nothing is reported if and only if both have some |
| ChangedLines.TypeChangeIsLost | crates/diffctx-native/src/change_class.rs:274-312 | a link to `a` made into a file of one line `b`: reading the printed diff and undoing it on the new text gives nothing |
| ChangedLines.TouchesAddedLines | crates/diffctx-native/src/changed_lines.rs:53-59 | a range of new lines is touched exactly when some section of that path, of however many, adds a line whose new number lies in it |
| ChangedLines.RemovedTextOfSection | crates/diffctx-native/src/changed_lines.rs:24-46 | the removed text held of a section is its removed lines, each with a line feed |
| Document.Document.Fit | crates/diffctx-native/src/artifact.rs:49-58 | the loop leaves the document the specification stops at, and returns its rendering |
| Document.Document.DropOneFragment | crates/diffctx-native/src/artifact.rs:257-302 | one step in place is the specified step, counts, flags and coverage included, or leaves everything alone and says so |
| Document.CollectClasses | crates/diffctx-native/src/artifact.rs:261-267 | a path gets a class exactly when some change of it has one, and it is the last one's; a change without a path is of the empty path |
| Document.Document.HalveWitness | crates/diffctx-native/src/artifact.rs:363-395 | the fragment is shortened in place to three quarters of its shown lines with an updated marker, or left alone when too little is shown |
| Document.Document.RecordCut | crates/diffctx-native/src/artifact.rs:304-358 | the coverage after a cut, created if missing, in every case of status and reasons |
| Budget.CutCoverageStands | crates/diffctx-native/src/artifact.rs:304-358 | after a cut the status is degraded exactly as told, never complete and otherwise what it was or partial; the earlier reasons stay and this one is listed once |
| Document.Document.MarkChanges | crates/diffctx-native/src/artifact.rs:288-299 | every change's flag says whether a fragment of its path is left; the result says whether a selectable one has none |
| Document.FindDropIndex | crates/diffctx-native/src/artifact.rs:405-427 | context from the tail, then the highest tier among the fragments of files that have two, then among all, the last one on ties |
| Budget.ClassIsGiven | crates/diffctx-native/src/artifact.rs:400-427 | a path is ranked by the class the last change that gives it one gives it, and as content when none does |
| Budget.HalvedShows | crates/diffctx-native/src/artifact.rs:363-395 | a shortened fragment reads back as the first lines of what was shown and the total number hidden, also when it was shortened before |
| Budget.HalvedKeeps | crates/diffctx-native/src/artifact.rs:363-395 | three quarters of the lines shown are kept, rounded down |
| Budget.HalvedNamesLines | crates/diffctx-native/src/artifact.rs:363-395 | the line range of a shortened fragment reads as its first line, or line 1, and as many lines as it shows |
| BudgetRuns.DropOneShrinks | crates/diffctx-native/src/artifact.rs:257-302 | every step makes the fragments and their unclipped lines fewer, so every run ends |
| BudgetRuns.FitEnds | crates/diffctx-native/src/artifact.rs:49-58 | a budget of 1 to 9,999,999 tokens is met by what is rendered or nothing is left to drop; without one, or with any other, nothing is dropped |
| BudgetRuns.FitIsFirst | crates/diffctx-native/src/artifact.rs:49-58 | the fit stops the first time the rendered charge is within the budget |
| BudgetRuns.DropOneIsHonest | crates/diffctx-native/src/artifact.rs:283-358 | after a step the count is the number of fragments, every flag agrees with them, the reason is listed, the status never improves, and is degraded exactly when it was or some selectable change has no fragment |
| BudgetRuns.RunIsHonest | crates/diffctx-native/src/artifact.rs:49-58 | the books agree with the fragments after any number of steps |
| BudgetRuns.StatusNeverImproves | crates/diffctx-native/src/artifact.rs:304-358 | along a run the status is never better later than earlier |
| BudgetRuns.HalvedIsPrefixIff | crates/diffctx-native/src/artifact.rs:363-395 | what a shortened fragment shows is a prefix of what it showed if and only if no kept line ends in a carriage return |
| BudgetRuns.CarriageReturnIsLost | crates/diffctx-native/src/artifact.rs:363-395 | the content `a\r\r\nb\n` shows `a\r` and, shortened, `a`: no prefix |
| BudgetRuns.LaterShowsFewer | crates/diffctx-native/src/artifact.rs:49-58 | along a run of any document the fragments left are a subsequence of the earlier ones, each showing a prefix of its lines, up to carriage returns at line ends, with shown plus hidden lines unchanged |
| BudgetRuns.RunShowsPrefixesIff | crates/diffctx-native/src/artifact.rs:49-58 | at every two points of the run the later fragments show exact prefixes of the earlier ones if and only if no changed fragment that can be shortened keeps a line ending in a carriage return |
| BudgetRuns.LargerBudgetShowsNoLess | crates/diffctx-native/src/artifact.rs:49-58 | for every document, every renderer that does not print the budget and any 1 <= b1 <= b2, every fragment left at b1 is left at b2 and shows there at least the lines it shows at b1, up to carriage returns at line ends, with shown plus hidden lines the same |
| BudgetRuns.LargerBudgetShowsPrefixesIff | crates/diffctx-native/src/artifact.rs:49-58 | for all such budgets, renderers and token counts the smaller budget shows exact prefixes of what the larger one shows if and only if no changed fragment that can be shortened keeps a line ending in a carriage return |
| BudgetOrder.PickIsSoonest | crates/diffctx-native/src/artifact.rs:405-427 | the rule that counts files afresh at every step picks what one order of the original fragments, fixed before the run, puts first |
| BudgetOrder.RunFollowsOrder | crates/diffctx-native/src/artifact.rs:49-58 | from every document, after any number of steps what is left is closed under that order: nothing later went before anything earlier, and all but the next to go is as it was |
| BudgetOrder.LaterIsUntouched | crates/diffctx-native/src/artifact.rs:257-302 | while a fragment is left, every fragment that goes after it is still there unchanged |
| BudgetOrder.ContextGoesFirst | crates/diffctx-native/src/artifact.rs:400-412 | while any context is left no changed fragment has been touched |
| BudgetOrder.SecondsGoBeforeFirsts | crates/diffctx-native/src/artifact.rs:400-427 | while some file has two changed fragments no file's last one has been touched |
| BudgetOrder.HigherTierGoesFirst | crates/diffctx-native/src/artifact.rs:400-427 | while a fragment of a higher tier, by its path and the class the changes give that path, is left among the candidates none of a lower tier has been touched |
| BudgetOrder.OnlyNextIsClipped | crates/diffctx-native/src/artifact.rs:257-302 | at most one fragment is ever shortened; it is the next to go, shows a prefix of its original lines up to carriage returns at line ends, and shown plus hidden is what it was |
| BudgetOrder.FreshIsClipped | crates/diffctx-native/src/artifact.rs:363-395 | if that fragment came in without a marker and with lines that end in no carriage return, it is its first k lines and a marker naming exactly the rest |
| Yaml.YamlEscape | crates/diffctx-native/src/artifact.rs:206-230 | the loop over the characters computes the escape specification |
| Yaml.YamlBlock | crates/diffctx-native/src/artifact.rs:234-253 | the writer appends the indented key and the specified value, escaped or literal |
| Yaml.LiteralIs | crates/diffctx-native/src/artifact.rs:206-245 | the literal form is used exactly for tabs, line feeds and printable characters but for the other line breaks, not all of them white space |
| YamlReader.EscapeReads | crates/diffctx-native/src/artifact.rs:206-230 | a YAML reader of double-quoted scalars (sections 5.7 and 7.3.1 of YAML 1.2.2) takes back every string from its escaped form, whatever follows |
| YamlReader.BlockLinesRead | crates/diffctx-native/src/artifact.rs:246-252 | at every indent the literal lines read back as the lines written, or not at all if one holds a byte order mark |
| YamlReader.ChompingRestores | crates/diffctx-native/src/artifact.rs:239-245 | the chosen chomping restores the final line breaks of every string that is not blank (section 8.1.1.2 of YAML 1.2.2) |
| YamlReader.BlockValueReads | crates/diffctx-native/src/artifact.rs:234-253 | for every string, indent and less indented rest, reading the written value returns the string and the rest exactly, if and only if it was escaped or holds no U+FEFF |
| YamlReader.MarkIsUnreadable | crates/diffctx-native/src/artifact.rs:234-253 | `a` and U+FEFF need no escape and are written as a block that no reader of YAML takes back, at every indent |
| PathLine.ReplacedIsEscaped | crates/diffctx-native/src/artifact.rs:874-879 | the three whole-string replacements, one after the other, escape each character on its own |
| PathLine.PathStands | crates/diffctx-native/src/artifact.rs:871-887 | an escaped path holds no line break, ends like no mark, and unescapes to the path |
| PathLine.LineReads | crates/diffctx-native/src/artifact.rs:767-803 | every printed path line is one line and reads back as its path and its mark |
| PathLine.LinesAreUnambiguous | crates/diffctx-native/src/artifact.rs:871-887 | two pairs of a path and a mark never share a line |
| PathLine.OmittedMeansNoneLeft | crates/diffctx-native/src/artifact.rs:508-551 | in a document with honest books a changed path that yielded fragments is marked omitted exactly when none of its fragments is left |
| PathLine.MarksStand | crates/diffctx-native/src/artifact.rs:508-551 | which mark a path gets, from the changes, or from the fragments when there are none |
| Sharding.SortRepos | eval/external/sharding.py:23 | the repositories listed once each, larger counts first and names ascending on ties |
| Sharding.OrderIsUnique | eval/external/sharding.py:23 | there is only one such list, so every shard computes the same assignment |
| Text.LessIsLexicographic | eval/external/sharding.py:23 | names are ordered by the first character in which they differ, a name before its continuations |
| Sharding.AssignRepos | eval/external/sharding.py:18-27 | an error exactly when there are no shards; otherwise the assignment is the greedy schedule of that list |
| Sharding.Counter | eval/external/sharding.py:33 | each repository's count is the number of its items |
| Sharding.ShardItems | eval/external/sharding.py:30-34 | an error exactly when the index is out of range; otherwise the items of the shard's repositories, in their order |
| Scheduling.Balanced | eval/external/sharding.py:20-27 | in any greedy schedule two machines differ by at most the largest job |
| Scheduling.LargeJobFits | eval/external/sharding.py:20-27 | a job of more than a third of what a rival schedule needs fits on the lightest machine within that bound, by counting machines |
| Scheduling.LargestFirstBound | eval/external/sharding.py:20-27 | largest first, every machine stays within 4/3 - 1/(3N) of the heaviest load of any rival schedule |
| Sharding.ShardsAreBalanced | eval/external/sharding.py:18-27 | any two shards differ by at most the largest repository |
| Sharding.ShardsAreNearOptimal | eval/external/sharding.py:18-27 | the heaviest shard is within 4/3 - 1/(3N), hence within 2 - 1/N, of any other assignment |
| Sharding.ShardsPartition | eval/external/sharding.py:30-34 | over all indices every item is in exactly one shard, with all items of its repository |
| Sharding.ShardSizesAreBalanced | eval/external/sharding.py:30-34 | the numbers of items of any two shards differ by at most those of the largest repository |
| Stats.SortedOrder | eval/harness/stats.py:91 | a permutation of the indices in ascending order of p |
| Stats.HolmCorrect | eval/harness/stats.py:81-100 | each adjusted value is the largest clamped step-down term among the p-values not above it, ties included, and a row is rejected exactly when it lies below alpha |
| Stats.BhFdr | eval/harness/stats.py:103-123 | each adjusted value is the smallest step-up term among the p-values not below it, capped at 1, and a row is rejected exactly when it lies below the level |
| Stats.HolmIsStepDown | eval/harness/stats.py:81-100 | the rows rejected are exactly those Holm's step-down procedure rejects |
| Stats.BhIsStepUp | eval/harness/stats.py:103-123 | the rows rejected are exactly those the Benjamini-Hochberg step-up procedure rejects |
| Stats.HolmAdjMonotone | eval/harness/stats.py:81-100 | adjusted values grow with p and are equal on ties |
| Stats.BhAdjMonotone | eval/harness/stats.py:103-123 | adjusted values grow with p and are equal on ties |
| Stats.AdjustedInRange | eval/harness/stats.py:81-123 | adjusted values are at least p and at most 1 |
| Stats.BhBelowHolm | eval/harness/stats.py:81-123 | the step-up value is at most the step-down one, so every Holm rejection is a BH rejection at the same level |
| Stats.HolmIsEquivariant | eval/harness/stats.py:81-100 | rearranging the input rearranges the adjusted values |
| Stats.BhIsEquivariant | eval/harness/stats.py:103-123 | rearranging the input rearranges the adjusted values |
| Seeds.FindCoreForHunk | crates/diffctx-native/src/core.rs:9-75 | in start and end lines: one cover of the best kind with the fewest lines, else all that overlap, else the nearest above and the nearest below; a function of the set of fragments, and some fragment whenever there is one |
| Seeds.TiesInLines | crates/diffctx-native/src/core.rs:22-72 | in one file ties go to the cover that starts first, the fragment above that starts last and the one below that ends first |
| Seeds.AddContainerHeaders | crates/diffctx-native/src/core.rs:77-105 | adds exactly the containers whose lines enclose those of a core fragment of their file |
| Seeds.IdentifyCoreFragments | crates/diffctx-native/src/core.rs:107-126 | the core set is a function of the set of fragments and the hunks |
| Seeds.SeedsAreOfHunks | crates/diffctx-native/src/core.rs:115-122 | the fragments seeded are those of each hunk among the fragments of its file |
| Seeds.CoreIgnoresOrder | crates/diffctx-native/src/core.rs:107-126 | every permutation of the fragments gives the same core set |
| Seeds.HunkSeedsSome | crates/diffctx-native/src/core.rs:107-126 | each hunk in a file that has fragments seeds at least one core fragment |
| Seeds.HeadersAreClosed | crates/diffctx-native/src/core.rs:77-105 | a second pass of container headers adds nothing |
| Seeds.MapHunksToFragments | crates/diffctx-native/src/core.rs:128-152 | weighs exactly the core fragments some hunk meets, each with the sum over all hunks of their lines, clipped to it or not, once for each fragment of that id |
| Seeds.ChargeCounts | crates/diffctx-native/src/core.rs:138-149 | a charge is the number of lines the hunk selects, in the fragment or in all |
| Seeds.ChargedOnce | crates/diffctx-native/src/core.rs:128-152 | when no two fragments share its id, a fragment's weight is one sum over the hunks that meet it |
| Seeds.AddContainerWeights | crates/diffctx-native/src/core.rs:154-183 | a container without a weight of its own carries what the core fragments inside it carry |
| Seeds.BestSizeForPath | crates/diffctx-native/src/core.rs:185-195 | the size of the largest hunk of the path: at least that of each, and of one of them; 0 if the path has no hunk |
| Seeds.FillMissingCoreWeights | crates/diffctx-native/src/core.rs:197-213 | every core fragment still without a weight gets the fallback of its path |
| Seeds.HunkLinesPerCore | crates/diffctx-native/src/core.rs:237-253 | the three passes together, clipped or not |
| Seeds.WeightStands | crates/diffctx-native/src/core.rs:237-253 | a core fragment weighs in the end what the hunks that meet it are charged; if none does and it is a container, what the charged ones inside it weigh; and if that is nothing, the largest hunk of its file |
| Seeds.ContainersAtMost | crates/diffctx-native/src/core.rs:154-183 | weights below weights stay below after the container pass |
| Seeds.ChangedLinesBelowSeedWeights | crates/diffctx-native/src/core.rs:216-253 | the clipped changed lines never exceed the seed weights, have the same keys, and cover the whole core set whenever any core fragment is overlapped |
| Excerpt.HunkWindow | crates/diffctx-native/src/excerpt.rs:32-46 | none exactly when no hunk meets the fragment; otherwise the span from the first to the last selected line inside it |
| Excerpt.SelectionIs | crates/diffctx-native/src/types.rs:281-308 | a hunk selects its new lines, and one that only deletes the line above, or line 1 |
| Excerpt.HitsInLines | crates/diffctx-native/src/excerpt.rs:32-46 | a hunk meets a fragment when it selects a line of it |
| Excerpt.PaddedInLines | crates/diffctx-native/src/excerpt.rs:94-110 | the window of a hunk is every line of the fragment within three lines of a line it selects |
| Excerpt.TotalShownCounts | crates/diffctx-native/src/excerpt.rs:119-122 | the number of lines shown, window by window, is the number of lines the windows cover |
| Excerpt.MergeWindows | crates/diffctx-native/src/excerpt.rs:112-118 | the in-place merge computes the specified list |
| Excerpt.MergedIsApart | crates/diffctx-native/src/excerpt.rs:111-118 | merged windows are ordered with a gap of at least two lines between any two |
| Excerpt.MergedCovers | crates/diffctx-native/src/excerpt.rs:111-118 | a line is in a merged window exactly when it was in a window or alone between two |
| Excerpt.WindowsAreShown | crates/diffctx-native/src/excerpt.rs:94-118 | the windows hold every line in the context of a hunk and each lone line between such lines, and no other |
| Excerpt.SelectedLinesAreShown | crates/diffctx-native/src/excerpt.rs:94-118 | every changed line inside the fragment is shown |
| Excerpt.Cut | crates/diffctx-native/src/excerpt.rs:128-143 | no text exactly when the fragment's text ends before the last window; otherwise each window's own lines, each gap between two named by its length |
| Excerpt.PiecesFill | crates/diffctx-native/src/excerpt.rs:128-146 | filling each elision with the number of lines it names rebuilds exactly the fragment's lines from the first window to the last |
| Excerpt.ElisionsAreWide | crates/diffctx-native/src/excerpt.rs:111-140 | no elision stands for fewer than two lines |
| Excerpt.SparseReadsIff | crates/diffctx-native/src/excerpt.rs:128-146 | the lines shown are told from the elisions exactly when none of them looks like one |
| Excerpt.SparseReads | crates/diffctx-native/src/excerpt.rs:128-146 | then the text, read back and filled with as many lines as each elision names, is the fragment's text from its first line to its last |
| Excerpt.SparseExcerpt | crates/diffctx-native/src/excerpt.rs:94-146 | none when no hunk meets the fragment; otherwise a text that splits at its line breaks into the lines and elisions of those windows, or none for one of four reasons and no other |
| Excerpt.Slice | crates/diffctx-native/src/excerpt.rs:65-76 | split at its line breaks the text is exactly the fragment's lines of the range, as far as its text goes; none when that ends before them or they are all blank |
| Excerpt.WidenedInLines | crates/diffctx-native/src/excerpt.rs:48-60 | the widened window is the lines of the fragment from three above the first selected to three below the last |
| Excerpt.ExcerptFrom | crates/diffctx-native/src/excerpt.rs:48-85 | none for stubs, short fragments and fragments no hunk meets; else the slice of the widened window when that is at most seven tenths of the fragment, and the sparse excerpt when it is more |
| Excerpt.SliceHoldsSelection | crates/diffctx-native/src/excerpt.rs:48-60 | the widened window holds every selected line of the fragment |
| Excerpt.ExcerptHoldsSelection | crates/diffctx-native/src/excerpt.rs:48-146 | whichever excerpt is cut, every selected line of the fragment, as far as its text goes, is a line of the excerpt's text |
| Interval.BinarySearch | crates/diffctx-native/src/interval.rs:26-28 | finds the span if it is there, and otherwise a place that keeps the list sorted |
| Interval.StartingBy | crates/diffctx-native/src/interval.rs:57-61 | splits the list between the spans that start by a line and those that start after it |
| Interval.IntervalIndex.AddId | crates/diffctx-native/src/interval.rs:24-30 | keeps every list sorted and holding the spans of its ids, changes no other path, and keeps the lists exactly the spans of the id set if and only if the id was absent |
| Interval.IntervalIndex.RemoveId | crates/diffctx-native/src/interval.rs:32-42 | keeps every list sorted, a chain if it was one, and exactly the spans of the id set; takes one such span out of its list, and changes no other path; where spans are listed more than once, the list still holds those of its ids if and only if this one was there once |
| Interval.AddedTwice | crates/diffctx-native/src/interval.rs:24-42 | an id added twice and removed once leaves a span of no id in its list |
| Interval.IntervalIndex.Overlaps | crates/diffctx-native/src/interval.rs:48-85 | the scan around the binary search agrees with the definition over the set of spans, even if some are listed more than once |
| Interval.OverlapsInLines | crates/diffctx-native/src/interval.rs:48-85 | to overlap is to share a line with another span that goes on below the first one |
| Interval.IntervalIndex.IsSupersetOf | crates/diffctx-native/src/interval.rs:87-103 | the scan agrees with the definition over the set of spans, even if some are listed more than once |
| Interval.ContainedInLines | crates/diffctx-native/src/interval.rs:87-103 | to be contained is to have every line in one other span |
| Interval.AddExact | crates/diffctx-native/src/interval.rs:24-30 | a sorted list with one span more stands for the id set with the id exactly when the id was new |
| Interval.RemoveExact | crates/diffctx-native/src/interval.rs:32-42 | a list with one such span less stands for the id set without the id |
| Interval.IntervalIndex.AddIfClear | crates/diffctx-native/src/interval.rs:20-103 | a client that adds exactly what is absent, neither contained nor overlapping keeps each file's spans a chain; as removal does too, ChainedLines holds over every mix of both |
| Interval.ChainedLines | crates/diffctx-native/src/interval.rs:48-103 | in such a chain the lines counted span by span exceed the distinct lines by at most one for each span after the first |
| Quotient.ForwardEdges | crates/diffctx-native/src/analytics.rs:155-170 | every stored edge is visited once, in storage order, leaving the node whose row holds it |
| Quotient.AddEdge | crates/diffctx-native/src/analytics.rs:204-238 | one edge is skipped, added to a group's own weight, or added to a link and to the count of its category, keeping the quotient of the edges seen |
| Quotient.UncategorisedIsGeneric | crates/diffctx-native/src/analytics.rs:204-225 | an edge without a category counts as a generic one |
| Quotient.QuotientGraph | crates/diffctx-native/src/analytics.rs:179-241 | groups, fragment and token counts, self weights, links, link weights and category counts are the sums over the admitted edges and fragments they stand for, and no category is listed without an edge |
| Quotient.QuotientAt | crates/diffctx-native/src/analytics.rs:114-241 | the same at each level, over the edges of the stored graph or none |
| QuotientLaws.WeightIsPooled | crates/diffctx-native/src/analytics.rs:179-241 | for every condition on pairs of groups, the admitted weight that meets it is the self weights plus the link weights that meet it |
| QuotientLaws.KindsArePooled | crates/diffctx-native/src/analytics.rs:204-238 | for every condition on pairs of different groups, the admitted edges of a category that meet it are counted, once each, by the links that meet it |
| QuotientLaws.WeightIsConserved | crates/diffctx-native/src/analytics.rs:172-241 | admitted weight between known fragments equals all self weights plus all link weights |
| QuotientLaws.FragmentsAreConserved | crates/diffctx-native/src/analytics.rs:188-202 | fragments and tokens are counted once each |
| QuotientLaws.QuotientIsUnique | crates/diffctx-native/src/analytics.rs:179-241 | a question has one quotient: every node, link, weight and category count of it is determined |
| QuotientLaws.FilterKeepsEdges | crates/diffctx-native/src/analytics.rs:204-225 | the quotient under a filter is the quotient without one of the edges of the wanted categories |
| QuotientLaws.CoarserIsRegrouped | crates/diffctx-native/src/analytics.rs:114-241 | for any grouping of groups, the quotient under the coarser key is the finer quotient regrouped: same groups, fragment and token counts, links, weights and counts of edges of each category, a link inside one coarse group becoming self weight |
| QuotientLaws.KeysAreDistinct | crates/diffctx-native/src/analytics.rs:114-130 | two fragments share a fragment key exactly when they are the same lines of one file, and a file key exactly when they are of one file |
| QuotientLaws.LevelsNest | crates/diffctx-native/src/analytics.rs:114-130 | the directory key is a function of the file key and the file key of the fragment key, so the regrouping law joins the three levels |
| Coupling.CouplingMetrics | crates/diffctx-native/src/analytics.rs:243-302 | one entry for each group, in order of name, with the metrics the quotient defines |
| Coupling.MetricsMeasureEdges | crates/diffctx-native/src/analytics.rs:252-280 | inside and outside weight are the fragment graph's admitted weight with both ends, and with exactly one end, in the group |
| Coupling.MetricsStand | crates/diffctx-native/src/analytics.rs:278-302 | the fans are the numbers of groups linked from this one and to it, and instability, cohesion and coupling are their parts of links and of weight to the nearest thousandth |
| Coupling.FansAddUp | crates/diffctx-native/src/analytics.rs:256-282 | fan-ins and fan-outs both add up to the number of links |
| Coupling.SharesAddUp | crates/diffctx-native/src/analytics.rs:278-280 | cohesion and coupling add up to 1 before rounding when there is weight |
| Coupling.CohesionAndCoupling | crates/diffctx-native/src/analytics.rs:278-297 | as reported to three decimals they add up to 1 if and only if the cohesion is not halfway between two thousandths |
| Coupling.SharesRoundUpTogether | crates/diffctx-native/src/analytics.rs:278-297 | own weight 1 and outside weight 1999 are reported as 0.001 and 1.0 |
| Canon.CanonTokens | crates/diffctx-native/src/canon.rs:15-36 | the loop over segments and case boundaries computes the token specification |
| Canon.KeyCache.Key | crates/diffctx-native/src/canon.rs:49-54 | always the canonical key, whatever was asked before |
| Spellings.SeparatedReads | crates/diffctx-native/src/canon.rs:15-36 | lowercase words under any one ASCII separator (snake, kebab, dotted) tokenise back to the words |
| Spellings.UpperSeparatedTokens | crates/diffctx-native/src/canon.rs:15-36 | upper-case words under any one separator tokenise back if and only if no letter directly follows a digit in any of them |
| Spellings.LetterAfterDigitSplits | crates/diffctx-native/src/canon.rs:15-36 | `A1B` tokenises to two words |
| Spellings.PascalTokens | crates/diffctx-native/src/canon.rs:15-36 | words run together with capitals tokenise back if and only if no one-letter word runs into the next |
| Spellings.CamelTokens | crates/diffctx-native/src/canon.rs:15-36 | in camel case the same, the first word excepted |
| Spellings.OneLetterWordsRunTogether | crates/diffctx-native/src/canon.rs:15-36 | `AB` from a, b tokenises to one word, and `xAB` from x, a, b to two |
| Spellings.OneKey | crates/diffctx-native/src/canon.rs:37-41 | all these spellings of a list of two-character words have one key |
| Spellings.KeyKeepsTokens | crates/diffctx-native/src/canon.rs:39-41 | the key of an ASCII name has the name's tokens |
| Spellings.KeyIsIdempotent | crates/diffctx-native/src/canon.rs:39-41 | on ASCII the key of a key is that key |
| Spellings.SameKeySameTokens | crates/diffctx-native/src/canon.rs:39-41 | two ASCII names share a key if and only if they have the same tokens |
| Discovery.BuildIndex | crates/diffctx-native/src/discovery.rs:414-428 | document counts, posting sets for the query terms and the total length are what the whole corpus says |
| Discovery.AverageOfEqual | crates/diffctx-native/src/discovery.rs:414-428 | the average of equal lengths is that length |
| Discovery.Bm25Score | crates/diffctx-native/src/discovery.rs:369-387 | the sum over the query terms, in any order, from the index's counts is the document's score |
| Discovery.PositivesAreCandidates | crates/diffctx-native/src/discovery.rs:441-456 | every document with a positive score is in some posting list |
| Discovery.PositiveMeansMentions | crates/diffctx-native/src/discovery.rs:369-439 | a score is positive exactly when the document uses a query term |
| Discovery.MoreOccurrencesScoreHigher | crates/diffctx-native/src/discovery.rs:369-387 | of two documents of one length that differ in one query term, the one with more of it scores higher, and only then |
| Discovery.LongerScoresLower | crates/diffctx-native/src/discovery.rs:369-387 | with the same occurrences the longer document scores lower, and only then |
| Discovery.ShareSaturates | crates/diffctx-native/src/discovery.rs:369-387 | a term's share stays below its worth times k1, and is half of that exactly when it occurs k1 times a quarter plus three quarters of the document's length over the average |
| Discovery.ShareAtAverage | crates/diffctx-native/src/discovery.rs:369-387 | in a document of average length the share of f occurrences is the worth times f * k1 / (f + k1) |
| Discovery.RarerIsWorthMore | crates/diffctx-native/src/discovery.rs:430-439 | every term is worth something, and more the fewer documents hold it |
| Discovery.Discover | crates/diffctx-native/src/discovery.rs:395-474 | the paths returned are those of the best k of all documents with a positive score |
| Ranking.SortByScore | crates/diffctx-native/src/discovery.rs:466-467 | a permutation in descending order of score |
| Ranking.TopKAgree | crates/diffctx-native/src/discovery.rs:466-473 | any two best-k lists of a corpus have the same scores place by place, so scoring every document gives the same answer up to ties |

## Left out

- Layout runs: `classify`, `settle_layout`, the `layout` flag and the `Shape` comparison rest on foreign grammars; the fallback comparison of trimmed lines is an easy member.
- Line numbers and counts are unbounded naturals; wrap-around of `u32` and `usize` is not modelled. A run with lines whose start is 0 makes `reverted` underflow; the model answers nothing there, and no run the reader returns from a printed diff is of that kind.
- git's C-style unquoting of names is a function parameter of the reader; the results on names ask only that it leaves a plain name alone.
- DiffRoundTrip.ContextDoesNotMatter: about the hunks the model's printer makes at widths of 1 or more; the general result on any legal grouping is `DiffReads`.
- ChangedLines.DiffRoundTrips: two sections of one path that both change lines are covered as the deletion and creation of a change of type, which is the pair git prints (`TypeChangeRoundTripsIff`), and not in other combinations.
- `first_removal_anchor`, `removed_text` and `is_changed_file` read one collection each; `FromDiff` states what the collections hold.
- The renderers, the tokenizer and `evidence_tier` are function parameters of the fit; nothing is assumed of them, except where budgets are compared that the renderer does not read the recorded budget.
- BudgetRuns.LargerBudgetShowsNoLess: a budget of 0 means that there is none, so it is not below the others.
- JSON values of unexpected types (a change that is no object, reasons that are no list, a path that is no string where one is read) are excluded by the model's record types; missing fields are modelled.
- The other fields of coverage, the place where keys are inserted, and the fields of a fragment that the fit does not read.
- YAML plain scalars, keys, lists and automatic indentation; the reader knows the two forms the block writer uses, and `src/diffctx/writer.py` repeats them in Python.
- The Markdown and text layouts around the path lines, and the `changed_files` values that are no strings.
- Fragment kinds are two flags (semantic, container); how tree-sitter finds fragments is not modelled.
- An excerpt's identifiers and token count, `is_downshift_worthwhile` and `generate_core_excerpts`.
- Floating point: shares of a fragment, hunk and edge weights, p-values, scores and idf are reals; rounding, infinities and NaN are not modelled, except that a score whose length ratio is 0/0 passes no test for being positive.
- The p-value functions take reals where the program takes any float, and the bootstrap and Wilcoxon functions are library expressions.
- Negative repository counts, which `Counter` allows, and shard specifications as text.
- Quotient.QuotientAt: the path functions (what is left below the root, and the parent directory) are parameters, and node labels are not modelled.
- Quotient.ForwardEdges: the stored graph is assumed to be well formed (monotone row offsets that span the edges), as its builder makes it.
- `hotspots`, Mermaid output and the edge discovery that builds the graph.
- Canon.CanonTokens: the Unicode classes and lowercasing are parameters; the results on spellings are for ASCII names, where those agree with ASCII.
- The runs of dotted segments in `for_each_run`, `for_each_name_key` and `for_each_word_key` only combine the keys.
- Discovery.Discover: no deadline ends the loops early, one thread scores, and `ln_1p` is a parameter of which only its growth and its sign are used; how the query terms are extracted is not modelled.
- The other discovery strategies, git, subprocesses, caches, the command line, the Python bridge and the rest of the evaluation harness.
