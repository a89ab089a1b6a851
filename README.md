# Advent of Code solutions, modelled in Dafny

This project models the core of a collection of Rust Advent of Code solutions. It states, and proves, what each solution does.

The centrepiece is the disk compactor of 2024 day 9. A `DiskMap` is built in one pass from a run-length digit string. It keeps the disk in two forms:
- a flat layout of `File(id)` and `FreeSpace` units;
- two ordered maps: file id to (start, length), and free-run start to length.

Two compactions run on it:
- `defrag` swaps the leftmost free unit with the rightmost file unit until the layout is packed. The result is `Compact` of the layout: each free unit among the first `n` positions, where `n` is the number of file units, receives a file unit taken from the right, in order, and every other file unit stays put;
- `defrag_contiguous` moves each whole file, highest id first, into the lowest free run to its left that is large enough, and gives the vacated span back to the free map, merged with its neighbours.

The other modules are the smaller puzzle solutions, one module per source file:

| puzzle | what it computes | module / file |
|---|---|---|
| 2024 day 5 | ordering rules for page updates: checking, repair by swaps, middle page | `PageOrdering` / `page_ordering.dfy` |
| 2024 day 7 | the greedy `subdivide` equation check | `EquationSolver` / `equation_solver.dfy` |
| 2024 day 2 | report safety with one tolerated removal | `ReportSafety` / `report_safety.dfy` |
| 2024 day 6 | the guard-walk map and its single step | `GuardWalk` / `guard_walk.dfy` |
| 2024 day 10 | trailheads and the depth-first climb to height-9 peaks | `TrailMap` / `trail_map.dfy` |
| 2024 day 8 | antenna antinodes and resonant harmonics | `CityGrid` / `city_grid.dfy` |
| 2024 day 4 | XMAS and crossed-MAS word-search counters | `LetterGrid` / `letter_grid.dfy` |
| 2024 day 3 | `mul` sums with the do/don't toggle | `MulToggle` / `mul_toggle.dfy` |
| 2024 day 1 | sorted-list distance and similarity | `LocationLists` / `location_lists.dfy` |
| 2023 day 1 | digit-word rewriting and calibration values | `DigitWords` / `digit_words.dfy` |
| 2022 day 2 | rock-paper-scissors scoring tables | `RockPaperScissors` / `rock_paper_scissors.dfy` |
| 2022 day 3 | rucksack priorities | `Rucksacks` / `rucksacks.dfy` |
| 2022 day 1 | calorie groups, maximum and top three | `CalorieGroups` / `calorie_groups.dfy` |

Day 9 is spread over three modules:
- `DiskLayout` (`disk_layout.dfy`): units, checksums, and the parse fold.
- `RunIndex` (`run_index.dfy`): the free-run and file maps, first fit, freeing with merging, and the contiguous compaction as a function.
- `DiskMap` (`disk_map.dfy`): the class with the layout and both maps as fields, and its methods.

Two modules are shared:
- `OrderedMaps` (`ordered_maps.dfy`): maximum, predecessor key and sums over maps keyed by offset.
- `Sorting` (`sorting.dfy`): a verified insertion sort on arrays. It stands in for the library sorts of 2024 day 1 and 2022 day 1.

`Wrappers` (`wrappers.dfy`) holds the `Option` datatype.

How the Rust is modelled:
- State that the source changes in place is a class with `seq` and `map` fields and `modifies` clauses: `DiskMap`, `Map`, `TopographicMap`, `CityGrid` and `LetterGrid`.
- Loops are methods with loop invariants, proved against specification functions.
- Pure helpers are functions.
- Logic that sits inside `main` is a method over the already-parsed lines.

## Model

| member | source | states |
|---|---|---|
| DiskLayout.Repeat | 2024/day_9/src/main.rs:52-58 | `repeat(x).take(n)` yields exactly `n` copies of `x` |
| DiskLayout.RangeSumClosedForm | 2024/day_9/src/main.rs:237-242 | the positions of a run sum to `len·(2·start+len−1)/2` |
| DiskLayout.WeightedSumAppend | 2024/day_9/src/main.rs:225-235 | the position-weighted checksum of a concatenation splits at the join, with the second part offset by the first's length |
| DiskLayout.FreeRunWeight | 2024/day_9/src/main.rs:14-19 | free units contribute nothing to the checksum |
| DiskLayout.FileRunWeight | 2024/day_9/src/main.rs:225-242 | a run of `File(id)` units weighs, in the flat checksum, exactly what the contiguous checksum charges for that file |
| DiskLayout.Swap | 2024/day_9/src/main.rs:132 | `Vec::swap` exchanges two positions, keeps every other one and keeps the multiset of units |
| DiskLayout.DigitValue | 2024/day_9/src/main.rs:48 | `to_digit(10)` is defined exactly on `'0'..'9'` and gives the digit's value |
| DiskLayout.Digits | 2024/day_9/src/main.rs:47-67 | the digit tokens of the input, never more than its characters |
| DiskLayout.DigitsOnly | 2024/day_9/src/main.rs:64-66 | the input with every non-digit dropped holds only digits |
| DiskLayout.FileRunAppended | 2024/day_9/src/main.rs:51-56 | appending a file run and recording it keeps every file entry covering exactly its own units |
| DiskLayout.FileStepConsistent | 2024/day_9/src/main.rs:51-56 | a file token keeps layout, file map and free map consistent |
| DiskLayout.FreeStepConsistent | 2024/day_9/src/main.rs:57-60 | a free token, zero-length ones included, keeps layout and maps consistent |
| DiskLayout.StepConsistent | 2024/day_9/src/main.rs:47-67 | every character, digit or not, keeps the parser state consistent |
| DiskLayout.ParseConsistent | 2024/day_9/src/main.rs:39-75 | after `new`, each file entry covers exactly the `File(id)` units of its span, each free entry covers only free units, and offsets match the layout length |
| DiskLayout.ParsedChecksumsAgree | 2024/day_9/src/main.rs:225-242 | on a freshly parsed map the flat and the contiguous checksums are equal |
| DiskLayout.ParseFollowsTokens | 2024/day_9/src/main.rs:44-62 | the layout length is the sum of the digits; runs alternate file/free starting with a file; file `id` is token `2·id` and starts at the sum of the tokens before it; every free token has an entry at its start, and one of positive length has an entry of exactly its length |
| DiskLayout.TokenEnds | 2024/day_9/src/main.rs:44-62 | a token's run ends no later than the end of the layout |
| DiskLayout.ParseIgnoresNonDigits | 2024/day_9/src/main.rs:64-66 | non-digit characters change nothing: parsing the input equals parsing its digits alone |
| DiskLayout.ParseFreeApart | 2024/day_9/src/main.rs:57-60 | free runs from the parse never overlap one another |
| DiskLayout.ParsedRunsDisjoint | 2024/day_9/src/main.rs:39-75 | after parsing, file spans and free spans are pairwise disjoint |
| OrderedMaps.MaxOf | 2024/day_9/src/main.rs:157-162 | the largest key of a non-empty set is in it and bounds every member (highest id first) |
| OrderedMaps.KeyBefore | 2024/day_9/src/main.rs:204-208 | `range(..pos).rev().next()`: the greatest key below `pos`, with no key strictly between; `None` exactly when no key lies below `pos` |
| OrderedMaps.SumRemove | 2024/day_9/src/main.rs:184-190 | a map sum loses exactly the removed entry's weight |
| OrderedMaps.SumInsert | 2024/day_9/src/main.rs:222 | inserting a new key adds exactly its weight |
| OrderedMaps.SumUpdate | 2024/day_9/src/main.rs:193 | overwriting a key trades its old weight for the new one |
| RunIndex.FirstFitFrom | 2024/day_9/src/main.rs:167-171 | the first free run at or after `from` and before `limit` that is long enough; none earlier fits; `None` only when no run in the range fits |
| RunIndex.FirstFit | 2024/day_9/src/main.rs:167-171 | `range(..file_pos).find(len >= file_len)`: the lowest-start run left of the file that is large enough, or `None` when none is |
| RunIndex.MergedStart | 2024/day_9/src/main.rs:200-214 | the merged run starts at `pos` or at the start of the run ending at `pos` |
| RunIndex.AddedFree | 2024/day_9/src/main.rs:199-223 | freeing `[pos, pos+len)` adds one run covering it, absorbs the predecessor ending at `pos` and the run starting at `pos+len`, and leaves every other run as it was |
| RunIndex.TakeFreeTotal | 2024/day_9/src/main.rs:184-190 | taking `len` units from the front of a run lowers the total free length by exactly `len`, on an exact fit and on a remainder alike |
| RunIndex.AddedFreeTotal | 2024/day_9/src/main.rs:199-222 | `add_free_space` raises the total free length by exactly `len` |
| RunIndex.CompactKeepsFiles | 2024/day_9/src/main.rs:164-179 | during the compaction every file keeps its id and length and never moves right; files not yet visited are untouched |
| RunIndex.CompactionKeepsFiles | 2024/day_9/src/main.rs:155-180 | the compaction keeps the set of file ids and every length, and no file start grows |
| RunIndex.SameLengthsSameTotal | 2024/day_9/src/main.rs:193 | files with the same lengths occupy the same total space |
| RunIndex.TakeFreeDisjoint | 2024/day_9/src/main.rs:184-193 | moving a file into the front of a fitting free run keeps file and free spans disjoint |
| RunIndex.MergedRunClear | 2024/day_9/src/main.rs:204-222 | a span clear of the freed run and of both merged neighbours is clear of the merged run |
| RunIndex.AddedFreeDisjoint | 2024/day_9/src/main.rs:199-223 | freeing a vacated span keeps all spans disjoint |
| RunIndex.ProcessFileKeeps | 2024/day_9/src/main.rs:164-178 | handling one file keeps spans disjoint and total free length unchanged |
| RunIndex.CompactKeepsRuns | 2024/day_9/src/main.rs:164-179 | the loop over the remaining files keeps spans disjoint and the total free length |
| RunIndex.CompactionKeepsRuns | 2024/day_9/src/main.rs:155-180 | from a disjoint state the whole compaction yields a disjoint state with the same total free length |
| DiskMap.FirstFree | 2024/day_9/src/main.rs:119-126 | the first free unit's index, or the length; every unit before it is a file unit |
| DiskMap.Descending | 2024/day_9/src/main.rs:157-162 | the files to process, one per id |
| DiskMap.ListDescending | 2024/day_9/src/main.rs:157-162 | the collected list is exactly the file entries as (id, start, length), largest id first |
| DiskMap.NextFree | 2024/day_9/src/main.rs:135-139 | stops at the first free unit at or after the start, or at the end; every unit passed is a file unit |
| DiskMap.PrevFile | 2024/day_9/src/main.rs:145-152 | moves down only over free units and never below the left cursor; above it, it stops only on a file unit |
| DiskMap.DiskMap.constructor | 2024/day_9/src/main.rs:39-75 | the character loop builds the same layout and maps as the parse fold; the maps are disjoint and the two checksums agree |
| DiskMap.DiskMap.Defrag | 2024/day_9/src/main.rs:118-154 | the layout becomes exactly `Compact` of the old one, so the same units (swaps only), no free unit before a file unit, positions before the first free unit untouched; only the layout changes |
| DiskMap.DiskMap.SwapStep | 2024/day_9/src/main.rs:132-152 | one round swaps the two units and leaves the left cursor on the next free unit and the right cursor on the next file unit, with only file units left of one and only free units right of the other; the layout with the new window still compacts to the same result |
| DiskMap.Cursors | 2024/day_9/src/main.rs:119-129 | the first free unit from the left and, not below it, the last file unit from the right; the layout with that window compacts to `Compact` of the whole |
| DiskMap.FilesLast | 2024/day_9/src/main.rs:118-154 | the file-unit count of a layout is that of all but its last unit, plus one when the last is a file unit |
| DiskMap.CompactLastFree | 2024/day_9/src/main.rs:146-152 | a trailing free unit stays last after compaction |
| DiskMap.CompactUnits | 2024/day_9/src/main.rs:132 | compaction only rearranges units: same multiset |
| DiskMap.CompactSplits | 2024/day_9/src/main.rs:118-154 | after compaction, position `i` holds a file unit exactly when `i` is below the number of file units |
| DiskMap.CompactKeeps | 2024/day_9/src/main.rs:122-126 | a file unit that already lies below the number of file units keeps its position |
| DiskMap.CompactPrefix | 2024/day_9/src/main.rs:122-126 | every unit before the first free unit keeps its position |
| DiskMap.CompactPacked | 2024/day_9/src/main.rs:118-154 | no free unit comes before a file unit after compaction |
| DiskMap.CompactFacts | 2024/day_9/src/main.rs:118-154 | compaction keeps the units, packs them and keeps the leading file units |
| DiskMap.SettledWindow | 2024/day_9/src/main.rs:131 | once the cursors meet, the window is at most one unit and the layout is compacted |
| DiskMap.SkipFiles | 2024/day_9/src/main.rs:134-139 | file units passed by the forward scan are already in their final place |
| DiskMap.SkipFrees | 2024/day_9/src/main.rs:146-152 | free units passed by the backward scan are already in their final place |
| DiskMap.SwapSettles | 2024/day_9/src/main.rs:132 | swapping the window's leading free unit with its trailing file unit puts both where compaction puts them |
| DiskMap.StepSettles | 2024/day_9/src/main.rs:132-152 | a swap followed by both scans leaves a window that still compacts to the same layout, with the cursors at most one apart |
| DiskMap.EndsSettled | 2024/day_9/src/main.rs:119-129 | the initial scans leave a window that compacts to the same layout |
| DiskMap.FrontSettled | 2024/day_9/src/main.rs:122-126 | the leading file units are settled |
| DiskMap.WholeWindow | 2024/day_9/src/main.rs:118-120 | with both cursors at the ends, the window is the whole layout |
| DiskMap.CompactWrapped | 2024/day_9/src/main.rs:132 | a window from a free unit to a file unit `x` compacts to `x`, the compacted middle, and a free unit |
| DiskMap.SwapParts | 2024/day_9/src/main.rs:132 | `swap` of the window's ends leaves the middle unchanged and exchanges the end units |
| DiskMap.UnitsLeading | 2024/day_9/src/main.rs:122-126 | a leading file unit followed by a rearranged rest keeps the units |
| DiskMap.UnitsTrailing | 2024/day_9/src/main.rs:146-152 | a rearranged front followed by the trailing free unit keeps the units |
| DiskMap.UnitsSwapped | 2024/day_9/src/main.rs:132 | exchanging the end units around a rearranged middle keeps the units |
| DiskMap.DiskMap.AddFreeSpace | 2024/day_9/src/main.rs:199-223 | the free map becomes `AddedFree` of the old one; only the free map changes |
| DiskMap.DiskMap.MoveFile | 2024/day_9/src/main.rs:182-197 | the file's entry becomes `(newPos, len)`; the target run is shrunk or removed, then the old span is freed with merging |
| DiskMap.DiskMap.DefragContiguous | 2024/day_9/src/main.rs:155-180 | the maps become the first-fit compaction of the old ones; ids and lengths are kept, starts never grow, disjointness and total free length are preserved; the layout is untouched |
| PageOrdering.Position | 2024/day_5/src/main.rs:17-18 | `position`: the first index holding `x`, `None` exactly when `x` is absent |
| PageOrdering.CheckUpdate | 2024/day_5/src/main.rs:22-29 | `None` unless both pages occur; `Some(true)` exactly when the first occurrence of `first` precedes that of `second`, `Some(false)` exactly when it does not |
| PageOrdering.FirstBeforeOrder | 2024/day_5/src/main.rs:26 | `f < s` on first-occurrence indices is the same as `first` appearing before any `second` |
| PageOrdering.Fixed | 2024/day_5/src/main.rs:31-35 | swaps exactly the two first-occurrence positions when both pages occur, otherwise no change; length and multiset are kept |
| PageOrdering.Fix | 2024/day_5/src/main.rs:31-35 | the in-place `fix` leaves the array holding `Fixed` of its old contents |
| PageOrdering.FixRepairs | 2024/day_5/src/main.rs:22-35 | on a duplicate-free update with distinct pages, fixing a violated rule makes it hold |
| PageOrdering.HandleUpdate | 2024/day_5/src/main.rs:74-81 | the middle page exactly when the update is non-empty and no rule reports a violation |
| PageOrdering.HandleOrderingRule | 2024/day_5/src/main.rs:70-72 | appends `Rule(pages[0], pages[1])` and keeps the earlier rules |
| PageOrdering.Pass | 2024/day_5/src/main.rs:89-96 | one pass keeps length and multiset; a pass that fixes nothing leaves the pages as they were and means every rule is obeyed |
| PageOrdering.FixPass | 2024/day_5/src/main.rs:89-96 | the in-place pass over the rules computes `Pass` |
| PageOrdering.FixPages | 2024/day_5/src/main.rs:83-108 | keeps the multiset; `None` and no change for an already valid update; any `Some(m)` comes with pages obeying every rule and `m` their middle page |
| PageOrdering.QuietPassMeansObeyed | 2024/day_5/src/main.rs:98-104 | a pass with no fix on a non-empty update means the recheck succeeds, so the `!fixed` break is reached only for an empty update |
| EquationSolver.Sums | 2024/day_7/src/main.rs:51 | the values reachable by adding `k` to a reachable value |
| EquationSolver.Products | 2024/day_7/src/main.rs:47-48 | the values reachable by multiplying a reachable value by `k` |
| EquationSolver.Values | 2024/day_7/src/main.rs:27-52 | the values a left-to-right `+`/`×` chain over the operands can take; some exist for a non-empty list |
| EquationSolver.Subdivide | 2024/day_7/src/main.rs:27-52 | empty gives false; one factor gives `result == factors[0]`; `result` equal to the last factor gives true; `result` below it gives false; `None` (division by zero) only with a zero factor |
| EquationSolver.DivisionTakesPrecedence | 2024/day_7/src/main.rs:47-48 | when the last factor divides `result`, the answer is exactly the recursive call on the quotient; subtraction is not tried |
| EquationSolver.SubdivideAcceptsUnreachable | 2024/day_7/src/main.rs:38-39 | `5` with factors `[3, 5]` is accepted although no chain gives 5 |
| EquationSolver.SubdivideMissesSum | 2024/day_7/src/main.rs:47-48 | `10` with factors `[2, 3, 5]` is rejected although `2 + 3 + 5` reaches 10 |
| EquationSolver.SolvableIffReachable | 2024/day_7/src/main.rs:27-52 | the corrected check accepts exactly the values some operator chain reaches |
| EquationSolver.SolvableLast | 2024/day_7/src/main.rs:47-51 | the corrected check tries both the quotient and the difference for the last factor |
| ReportSafety.Signum | 2024/day_2/src/main.rs:73-81 | 1 exactly for a positive argument, 0 exactly for zero, −1 exactly for a negative one |
| ReportSafety.CompareNumberSafety | 2024/day_2/src/main.rs:66-71 | true exactly when `1 ≤ |a−b| ≤ 3` with the sign of `a−b` equal to `d`, so never for `d = 0` |
| ReportSafety.Remove | 2024/day_2/src/main.rs:51-59 | `Vec::remove(i)` shifts the later elements down by one |
| ReportSafety.FirstUnsafe | 2024/day_2/src/main.rs:41-46 | the first unsafe adjacent pair from `from`, with all earlier pairs safe; `None` when every pair is safe |
| ReportSafety.CheckSafety | 2024/day_2/src/main.rs:36-64 | never below the input level; unchanged above 1; from level 0 or 1 the result is at most 2 and equals the input level exactly when every pair is safe |
| ReportSafety.CheckSafetySound | 2024/day_2/src/main.rs:27-29 | a report the source counts as safe is safe as it is or after removing one level, in the fixed direction |
| ReportSafety.ReportSafe | 2024/day_2/src/main.rs:13-29 | `None` exactly for an empty line; a safe verdict means safe with at most one removal; a report safe as it stands is counted |
| ReportSafety.DirectionFixedTooEarly | 2024/day_2/src/main.rs:17-18 | `[9,1,2]` is rejected although dropping the 9 leaves a safe report |
| ReportSafety.OnlyLaterLevelDropped | 2024/day_2/src/main.rs:49-60 | `[1,2,4,3,4]` is rejected although dropping the first 4 leaves a safe report |
| ReportSafety.SafeEitherWay | 2024/day_2/src/main.rs:66-71 | safe increasing or safe decreasing |
| ReportSafety.SomeRemovalSafe | 2024/day_2/src/main.rs:49-60 | some removal at or after `from` leaves a report safe in either direction |
| ReportSafety.ReportSafeCorrected | 2024/day_2/src/main.rs:13-29 | the corrected decision: `None` for an empty line, otherwise true exactly when the report is safe with at most one removal |
| GuardWalk.GetGuardDirection | 2024/day_6/src/main.rs:194-202 | `^ > V <` map to a direction and every other character to `None`; the glyph of the result is the input |
| GuardWalk.GuardGlyphRoundTrip | 2024/day_6/src/main.rs:19-27 | reading back a guard's glyph gives its direction |
| GuardWalk.NewCell | 2024/day_6/src/main.rs:37-46 | an obstacle exactly for `#`, with no guard and nothing crossed |
| GuardWalk.Cross | 2024/day_6/src/main.rs:47-49 | adds exactly the direction to the crossed set and changes nothing else |
| GuardWalk.GetChar | 2024/day_6/src/main.rs:51-71 | `#` first, then the guard glyph, then `+`/`-`/`|`/`.` by the axes crossed; `.` exactly for an empty, uncrossed cell |
| GuardWalk.TurnRight | 2024/day_6/src/main.rs:155-162 | a turn always changes the direction |
| GuardWalk.FourTurnsRestore | 2024/day_6/src/main.rs:155-162 | four turns restore the direction; two or three never do |
| GuardWalk.VisitedInRow | 2024/day_6/src/main.rs:164-170 | visited cells of a row never exceed its width |
| GuardWalk.VisitedInRowGrows | 2024/day_6/src/main.rs:164-170 | growing crossed sets never lower a row's count |
| GuardWalk.VisitedCellsGrow | 2024/day_6/src/main.rs:164-170 | growing crossed sets never lower the total |
| GuardWalk.InitialCell | 2024/day_6/src/main.rs:94-101 | obstacle exactly for `#`; a guard exactly on a guard glyph, facing its way; the start cell is not marked crossed |
| GuardWalk.InitialRow | 2024/day_6/src/main.rs:88-103 | the row from `new`: filled cells for the characters read, default cells elsewhere |
| GuardWalk.FillRow | 2024/day_6/src/main.rs:93-102 | the row ends up holding every character's cell, and the remembered guard is the last guard glyph read so far in reading order |
| GuardWalk.Map.constructor | 2024/day_6/src/main.rs:84-115 | grid size from the lines; every cell as read; the guard is the last guard glyph in reading order, facing Up when there is none |
| GuardWalk.Map.ChangeDirection | 2024/day_6/src/main.rs:155-163 | the direction turns right and nothing else changes |
| GuardWalk.Map.MoveGuard | 2024/day_6/src/main.rs:123-154 | no guard: no change; next cell off grid: only `completed` set; obstacle: only a right turn; otherwise one step with the guard moved and the direction crossed on the new cell; the guard stays on the grid, off obstacles; visited count never falls |
| TrailMap.Visit | 2024/day_10/src/main.rs:22-25 | sets `visited` and keeps the height |
| TrailMap.Unvisit | 2024/day_10/src/main.rs:26-28 | clears `visited` and keeps the height |
| TrailMap.Heights | 2024/day_10/src/main.rs:31-37 | the height grid read from the cells |
| TrailMap.ReachesStart | 2024/day_10/src/main.rs:91 | a trailhead reaches itself |
| TrailMap.ReachesStep | 2024/day_10/src/main.rs:103-106 | reaching a cell and climbing one step reaches its neighbour |
| TrailMap.TrailClimbs | 2024/day_10/src/main.rs:128 | along a trail the height rises by exactly one per step |
| TrailMap.ClosedHoldsTrail | 2024/day_10/src/main.rs:93-107 | a visited set closed under steps holds the end of any trail from a visited cell |
| TrailMap.ClosedHoldsReachable | 2024/day_10/src/main.rs:93-107 | such a set holds every cell reachable from the start |
| TrailMap.ViableUpTo | 2024/day_10/src/main.rs:116-135 | after `k` directions at most `k` neighbours |
| TrailMap.ViableNeighbours | 2024/day_10/src/main.rs:111-138 | at most four neighbours |
| TrailMap.ViableNeighboursExact | 2024/day_10/src/main.rs:111-138 | a cell is returned exactly when it is an in-bounds orthogonal neighbour one higher and not yet visited |
| TrailMap.ViableUpToDistinct | 2024/day_10/src/main.rs:113-135 | the first `k` directions yield pairwise distinct cells, each lying in one of those directions |
| TrailMap.ViableNeighboursDistinct | 2024/day_10/src/main.rs:111-138 | no neighbour is returned twice |
| TrailMap.WeightAppend | 2024/day_10/src/main.rs:93-106 | the stack weight is additive |
| TrailMap.WeightLevel | 2024/day_10/src/main.rs:103-106 | entries of one height weigh `5^(9−h)` each |
| TrailMap.PopWeight | 2024/day_10/src/main.rs:93-106 | replacing a popped cell by at most four cells one higher strictly lowers the weight, so the loop ends |
| TrailMap.MorePeaksRecorded | 2024/day_10/src/main.rs:98 | recording more peaks keeps every reachable peak recorded |
| TrailMap.SameHeights | 2024/day_10/src/main.rs:22-28 | flag changes leave the height grid unchanged |
| TrailMap.VisitOne | 2024/day_10/src/main.rs:94-95 | visiting a cell changes only that cell's flag |
| TrailMap.PopStep | 2024/day_10/src/main.rs:93-107 | one pop keeps the search invariants: visited cells reachable, unvisited successors on the stack, peaks recorded |
| TrailMap.DigitValue | 2024/day_10/src/main.rs:50 | a digit's value is at most 9 |
| TrailMap.RowHeadsMembers | 2024/day_10/src/main.rs:49-54 | a row's trailheads are exactly its height-0 cells, as `((x, y), 0)`, left to right |
| TrailMap.RowHeadsPrefix | 2024/day_10/src/main.rs:49-54 | the trailheads found so far do not depend on later cells |
| TrailMap.ParseRow | 2024/day_10/src/main.rs:47-54 | one unvisited cell per digit of the line, and the row's height-0 cells appended to the trailheads, left to right |
| TrailMap.HeadsMembers | 2024/day_10/src/main.rs:47-57 | the trailheads are exactly the height-0 cells of the grid |
| TrailMap.HeadsPrefix | 2024/day_10/src/main.rs:47-57 | the trailheads of earlier rows do not depend on later rows |
| TrailMap.HeadsOrdered | 2024/day_10/src/main.rs:47-57 | trailheads are listed in row-major order |
| TrailMap.PeakPopKeeps | 2024/day_10/src/main.rs:96-101 | popping a peak records it, adds one to the score and keeps the search invariant |
| TrailMap.ExpandPopKeeps | 2024/day_10/src/main.rs:103-106 | popping a lower cell pushes its viable neighbours and keeps the search invariant |
| TrailMap.VisitedPeaksMembers | 2024/day_10/src/main.rs:94-99 | the visited peaks are exactly the visited cells of height 9 |
| TrailMap.ReachablePeaksMembers | 2024/day_10/src/main.rs:79-82 | a trailhead's reachable peaks are exactly the in-grid height-9 cells it reaches by a trail |
| TrailMap.ExactStart | 2024/day_10/src/main.rs:91-92 | on a reset grid the one-cell stack with score 0 satisfies the exact-count invariant: stack cells distinct, unvisited, heights non-decreasing upwards, score equal to the visited peaks |
| TrailMap.RestUnvisited | 2024/day_10/src/main.rs:93-95 | under that invariant the popped cell was unvisited and the cells left below it stay unvisited after it is visited, none higher than it |
| TrailMap.PeakPopExact | 2024/day_10/src/main.rs:96-100 | popping a peak and counting it keeps the score equal to the visited peaks |
| TrailMap.ExpandPopExact | 2024/day_10/src/main.rs:103-106 | pushing distinct unvisited neighbours one higher than the popped cell keeps the exact-count invariant |
| TrailMap.PeakPopCounts | 2024/day_10/src/main.rs:93-101 | a peak pop on the grid keeps the exact-count invariant with the score raised by one |
| TrailMap.ExpandPopCounts | 2024/day_10/src/main.rs:93-106 | a lower-cell pop on the grid keeps the exact-count invariant with the score unchanged |
| TrailMap.VisitedPeaksReachable | 2024/day_10/src/main.rs:90-109 | when the search from a reset grid ends, the visited peaks are exactly the peaks reachable from the start |
| TrailMap.PrefixGrows | 2024/day_10/src/main.rs:79 | the trailheads handled after one more iteration are the earlier ones plus the current one |
| TrailMap.TotalScoreStep | 2024/day_10/src/main.rs:79-82 | adding one trailhead adds the number of peaks it reaches to the total |
| TrailMap.TopographicMap.constructor | 2024/day_10/src/main.rs:40-67 | cells hold the digit heights, unvisited; trailheads are the height-0 cells in row-major order; no peaks yet |
| TrailMap.TopographicMap.GetViableNeighbours | 2024/day_10/src/main.rs:111-138 | the direction loop returns `ViableNeighbours` |
| TrailMap.TopographicMap.Reset | 2024/day_10/src/main.rs:68-75 | every flag cleared, every height kept |
| TrailMap.TopographicMap.ExploreStep | 2024/day_10/src/main.rs:93-107 | one iteration keeps the search invariant, keeps the exact-count invariant when the search began on a reset grid, and lowers the stack weight |
| TrailMap.TopographicMap.Explore | 2024/day_10/src/main.rs:90-109 | heights kept; visited flags only set; start visited; peaks only added and every new one reachable; score at least the new peaks; from a reset grid every reachable peak is recorded and the score equals the number of distinct peaks reachable from the start |
| TrailMap.TopographicMap.ExploreHead | 2024/day_10/src/main.rs:79-82 | one trailhead: after the reset, every peak reachable from it is recorded and its score is exactly the number of distinct peaks it reaches |
| TrailMap.TopographicMap.ExploreNext | 2024/day_10/src/main.rs:79-85 | one iteration over the trailheads: the running total grows by that trailhead's exact score and every trailhead handled so far keeps all its peaks recorded |
| TrailMap.TopographicMap.ExploreAll | 2024/day_10/src/main.rs:76-88 | trailheads consumed; heights kept; peaks never cleared; every reachable peak of every trailhead recorded; the total score is the sum over the trailheads, in order, of the number of distinct peaks each one reaches |
| CityGrid.Delta | 2024/day_8/src/main.rs:76-77 | the vector from `a` to `b`, zero exactly when they are equal |
| CityGrid.Keep | 2024/day_8/src/main.rs:88-92 | keeps exactly the in-bounds candidates |
| CityGrid.Antinodes | 2024/day_8/src/main.rs:71-99 | exactly the in-bounds members of `{a−d, b+d}`, at most two |
| CityGrid.RayPoints | 2024/day_8/src/main.rs:110-125 | a ray holds `q + k·d` for `k = 0, 1, …`, each in bounds, up to the first point off the grid |
| CityGrid.Harmonics | 2024/day_8/src/main.rs:101-132 | forward from `a+d` then backward from `a−d`; an in-bounds `b` comes first |
| CityGrid.HarmonicsInBounds | 2024/day_8/src/main.rs:111-125 | every harmonic point is in bounds |
| CityGrid.PairsOverAdd | 2024/day_8/src/main.rs:52 | adding one frequency adds its pairs' antinodes |
| CityGrid.SweptInBounds | 2024/day_8/src/main.rs:53-66 | the pair loop only records in-bounds points |
| CityGrid.SweptHarmonicSuperset | 2024/day_8/src/main.rs:56-59 | the pair loop puts every plain antinode among the harmonic ones |
| CityGrid.SweptHasPair | 2024/day_8/src/main.rs:53-66 | every pair already swept has contributed its points |
| CityGrid.AllPairsInBounds | 2024/day_8/src/main.rs:51-70 | every recorded antinode is in bounds |
| CityGrid.AntinodesAreHarmonic | 2024/day_8/src/main.rs:57-63 | the antinodes are among the harmonic antinodes |
| CityGrid.SharedFrequencyIsHarmonic | 2024/day_8/src/main.rs:52-63 | an in-bounds antenna sharing its frequency with another is a harmonic antinode |
| CityGrid.Added | 2024/day_8/src/main.rs:47-49 | `entry().or_default().push()`: one more key at most, other frequencies unchanged, the position appended to its list |
| CityGrid.ScannedMembers | 2024/day_8/src/main.rs:35-41 | the scan records exactly the non-`.` cells read so far, each under its character |
| CityGrid.CityGrid.constructor | 2024/day_8/src/main.rs:19-46 | size from the lines; antennas from the scan; antinodes and harmonic antinodes over all same-frequency pairs; on a rectangular grid every antenna sharing its frequency is a harmonic antinode |
| CityGrid.CityGrid.AddAntenna | 2024/day_8/src/main.rs:47-50 | the antenna map becomes `Added` of the old one |
| CityGrid.CityGrid.CalculateAntinodes | 2024/day_8/src/main.rs:71-100 | `Antinodes` in order, `None` when empty |
| CityGrid.CityGrid.CalculateHarmonicAntinodes | 2024/day_8/src/main.rs:101-133 | the two stepping loops compute `Harmonics`, `None` when empty |
| CityGrid.CityGrid.CalculateAllAntinodes | 2024/day_8/src/main.rs:51-70 | both sets grow by exactly the points of all same-frequency pairs |
| CityGrid.CityGrid.AddFrequency | 2024/day_8/src/main.rs:53-67 | both sets grow by exactly one frequency's pair points |
| CityGrid.CityGrid.AddPair | 2024/day_8/src/main.rs:55-65 | both sets grow by exactly one pair's points; plain antinodes go into both |
| LetterGrid.CountTrue | 2024/day_4/src/main.rs:74-97 | a count of hits never exceeds the directions tried |
| LetterGrid.CountTrueIsCard | 2024/day_4/src/main.rs:74-97 | the count is the number of directions that hit |
| LetterGrid.XmasFlags | 2024/day_4/src/main.rs:74-95 | for each of the 8 directions, whether M, A, S sit at steps 1, 2, 3 |
| LetterGrid.CrossFlags | 2024/day_4/src/main.rs:114-145 | for each of the 4 diagonals, whether A at +1, S at +2 and the corners read M/S or S/M |
| LetterGrid.TotalBound | 2024/day_4/src/main.rs:60-68 | the grid total is at most 8 (or 4) per cell scanned |
| LetterGrid.CrossMasCountedTwice | 2024/day_4/src/main.rs:160-165 | each crossed MAS centred on an `A` is hit exactly twice, once from each M, and otherwise not at all |
| LetterGrid.LetterGrid.constructor | 2024/day_4/src/main.rs:26-51 | size from the lines; characters copied, blanks padding short lines; counters zero |
| LetterGrid.LetterGrid.CheckXmasFromPosition | 2024/day_4/src/main.rs:70-98 | adds the number of directions spelling XMAS from the cell |
| LetterGrid.LetterGrid.XmasAlongFrom | 2024/day_4/src/main.rs:75-94 | a direction is a hit exactly when `M`, `A` and `S` lie on the grid one, two and three steps along it |
| LetterGrid.LetterGrid.FindXmasPatterns | 2024/day_4/src/main.rs:60-68 | adds the hits of every `X` cell |
| LetterGrid.LetterGrid.CheckCrossMasFromPosition | 2024/day_4/src/main.rs:110-146 | adds the number of diagonals completing a crossed MAS from the cell |
| LetterGrid.LetterGrid.FindCrossMasPatterns | 2024/day_4/src/main.rs:100-108 | adds the hits of every `M` cell |
| MulToggle.MultiplyAndSumAppend | 2024/day_3/src/main.rs:86-88 | the sum of products is additive over concatenation |
| MulToggle.MulPairs | 2024/day_3/src/main.rs:29 | the `mul` pairs of the expression stream |
| MulToggle.MulPairsAppend | 2024/day_3/src/main.rs:29 | the pairs of a concatenation are the pairs of each part in order |
| MulToggle.SwitchedAppend | 2024/day_3/src/main.rs:24-45 | the toggle state carries across lines: folding two lines is folding their concatenation |
| MulToggle.SwitchedAtMostSum | 2024/day_3/src/main.rs:36-40 | the switched sum never exceeds the plain sum |
| MulToggle.SwitchedWithoutDont | 2024/day_3/src/main.rs:33-44 | without a `don't`, the switched sum equals the plain sum and the state stays On |
| MulToggle.Scan | 2024/day_3/src/main.rs:22-45 | the line loop yields the plain sum and the switched sum of the whole stream, starting On |
| MulToggle.ScanLine | 2024/day_3/src/main.rs:33-44 | one line adds its switched products and hands on its final state |
| LocationLists.ListsSameLength | 2024/day_1/src/main.rs:15-18 | both lists take one number from the same lines |
| LocationLists.BuildLists | 2024/day_1/src/main.rs:11-19 | only two-number lines push, one number to each list, so the lists are equally long |
| LocationLists.DistanceZero | 2024/day_1/src/main.rs:27-29 | paired lists are zero apart exactly when equal |
| LocationLists.SortedDistanceZero | 2024/day_1/src/main.rs:21-29 | sorted lists are zero apart exactly when the inputs hold the same numbers equally often |
| LocationLists.CountIsMultiplicity | 2024/day_1/src/main.rs:31 | the `filter().count()` is the multiplicity of the value |
| LocationLists.SimilarityAppend | 2024/day_1/src/main.rs:30-31 | similarity is additive over the left list |
| LocationLists.SimilarityRightOrder | 2024/day_1/src/main.rs:22 | reordering the right list does not change the similarity |
| LocationLists.SimilarityLeftOrder | 2024/day_1/src/main.rs:21 | reordering the left list does not change the similarity |
| LocationLists.SimilarityIgnoresOrder | 2024/day_1/src/main.rs:21-31 | the similarity is the same before and after sorting |
| LocationLists.Compare | 2024/day_1/src/main.rs:24-32 | the index loop yields the distance and the similarity |
| LocationLists.Solve | 2024/day_1/src/main.rs:4-38 | both lists sorted ascending and permutations of the read lists; the distance of the sorted lists; the similarity of the lists as read |
| Sorting.OrderedUnique | 2024/day_1/src/main.rs:21-22 | two sorted arrangements of the same multiset are equal |
| Sorting.Sort | 2024/day_1/src/main.rs:21-22 | the array ends sorted (ascending or descending) and a permutation of its old contents |
| Sorting.Insert | 2024/day_1/src/main.rs:21-22 | inserting one element extends the sorted prefix, keeps the multiset and leaves the elements after it untouched |
| DigitWords.WordsDistinct | 2023/day-1/src/main.rs:30 | the ten number words are distinct |
| DigitWords.WordLengths | 2023/day-1/src/main.rs:17 | every word from `one` to `nine` has at least three letters |
| DigitWords.MatchFrom | 2023/day-1/src/main.rs:32-37 | the first index from `from` whose word is the input, or none |
| DigitWords.MatchNumber | 2023/day-1/src/main.rs:29-38 | `Some(i)` exactly when the input is the `i`-th word of `zero`..`nine`; `None` for anything else |
| DigitWords.FirstNumberIsFirstDigit | 2023/day-1/src/main.rs:3-13 | the first digit character's value; `None` exactly when there is no digit |
| DigitWords.Reverse | 2023/day-1/src/main.rs:49 | reversal keeps the length |
| DigitWords.FirstOfReverseIsLast | 2023/day-1/src/main.rs:49-50 | the first digit of the reversal is the last digit |
| DigitWords.WordAt | 2023/day-1/src/main.rs:17-19 | the first word from `from` to `nine` occurring at an offset, or none |
| DigitWords.LeftmostIsFirst | 2023/day-1/src/main.rs:17-19 | the match found occurs, and no word occurs at an earlier offset; none only when no word occurs anywhere |
| DigitWords.DigitChar | 2023/day-1/src/main.rs:24 | `number.to_string()` is one digit character of that value |
| DigitWords.ReplaceLeftmost | 2023/day-1/src/main.rs:20-24 | replacing a word by its digit shortens the string by at least 2 |
| DigitWords.RewrittenWordFree | 2023/day-1/src/main.rs:19-25 | no word `one`..`nine` remains; the string never grows; a string without one is unchanged |
| DigitWords.EarlierWordWins | 2023/day-1/src/main.rs:19-25 | `eightwo` becomes `8wo`: of two overlapping words only the earlier is replaced |
| DigitWords.ZeroStays | 2023/day-1/src/main.rs:17 | `zero` is left alone |
| DigitWords.WordsHaveNoDigit | 2023/day-1/src/main.rs:17 | no number word contains a digit |
| DigitWords.ReplaceKeepsDigit | 2023/day-1/src/main.rs:24 | a digit of the string survives one replacement |
| DigitWords.DigitKept | 2023/day-1/src/main.rs:19-25 | a string holding a digit still holds one after rewriting |
| DigitWords.RewriteStep | 2023/day-1/src/main.rs:19-25 | replacing the leftmost match is one step of the rewrite |
| DigitWords.ReplaceMatch | 2023/day-1/src/main.rs:20-24 | one loop body: look the match up and splice its digit in |
| DigitWords.ReplaceSubstringWithNumber | 2023/day-1/src/main.rs:15-27 | the loop computes the rewrite and ends because each step shortens the string |
| DigitWords.LastDigitFound | 2023/day-1/src/main.rs:49-50 | a string with a digit has a last digit |
| DigitWords.LineValueDigits | 2023/day-1/src/main.rs:46-55 | a line has a value exactly when its rewrite holds a digit, and the value is `10·first + last` |
| DigitWords.CalibrationValue | 2023/day-1/src/main.rs:46-55 | the per-line body computes the line's value |
| DigitWords.TotalDefined | 2023/day-1/src/main.rs:45-58 | the sum is defined exactly when every line has a value |
| DigitWords.Calibrate | 2023/day-1/src/main.rs:43-58 | the line loop yields the total, `None` at the first line without a digit |
| RockPaperScissors.HandScoreP1 | 2022/day_2/src/main.rs:12-18 | the points of the shape played: 1 exactly for X, 2 exactly for Y, else 3 |
| RockPaperScissors.ResultScoreP1 | 2022/day_2/src/main.rs:20-40 | the outcome points of the round under the rules; always 0, 3 or 6; 3 exactly for equal shapes, unknown opponent letters read as scissors |
| RockPaperScissors.ResultScoreP2 | 2022/day_2/src/main.rs:42-48 | the points of the outcome asked for: 0 exactly for X, 3 exactly for Y, else 6 |
| RockPaperScissors.HandScoreP2 | 2022/day_2/src/main.rs:50-70 | 1 to 3, the points of the shape that reaches the outcome asked for |
| RockPaperScissors.TablesAgree | 2022/day_2/src/main.rs:20-70 | the hand part 2 picks, scored with the part 1 table, earns what the part 2 table awards |
| RockPaperScissors.Fields | 2022/day_2/src/main.rs:81 | the first two fields of `split(" ")`; `None` exactly when there is no space |
| RockPaperScissors.IndexOf | 2022/day_2/src/main.rs:81 | the first position of a character, `None` exactly when absent |
| RockPaperScissors.RoundScoreBounds | 2022/day_2/src/main.rs:84-89 | a round scores 1 to 9 under either reading |
| RockPaperScissors.TotalsBounds | 2022/day_2/src/main.rs:78-92 | each total is between 1 and 9 points per non-empty line |
| RockPaperScissors.AddRound | 2022/day_2/src/main.rs:81-89 | one non-empty line adds its part 1 and part 2 round points to the running totals, and fails exactly when the line has no space |
| RockPaperScissors.Score | 2022/day_2/src/main.rs:76-92 | the line loop skips empty lines and sums both readings |
| RockPaperScissors.TotalsFail | 2022/day_2/src/main.rs:81-84 | a non-empty line without a space makes the run fail |
| Rucksacks.Priority | 2022/day_3/src/main.rs:11-18 | `a`–`z` get 1–26, `A`–`Z` get 27–52 |
| Rucksacks.PriorityOfLetters | 2022/day_3/src/main.rs:11-18 | letters get 1 to 52, no two the same |
| Rucksacks.FirstCommonIsFirst | 2022/day_3/src/main.rs:28-33 | the item found is the first one every other list holds; none exactly when no item is shared |
| Rucksacks.FindCommon | 2022/day_3/src/main.rs:28-33 | the loop with its `break` finds that first shared item |
| Rucksacks.SumHalves | 2022/day_3/src/main.rs:21-37 | part 1 adds one priority per line at most |
| Rucksacks.LinePriorityShared | 2022/day_3/src/main.rs:25-33 | a line adds the priority of the first first-half item its second half holds, or 0 when they share none |
| Rucksacks.GroupsSumPrefix | 2022/day_3/src/main.rs:43-56 | a group depends only on its own three lines |
| Rucksacks.TrailingLinesIgnored | 2022/day_3/src/main.rs:43-56 | lines after the last full group add nothing |
| Rucksacks.SumGroups | 2022/day_3/src/main.rs:40-60 | the buffered loop sums the groups of three consecutive lines |
| CalorieGroups.GroupsCover | 2022/day_1/src/main.rs:18-30 | one group per blank line plus one, holding every number read |
| CalorieGroups.BlankAfterBlank | 2022/day_1/src/main.rs:20-23 | consecutive blank lines yield empty groups |
| CalorieGroups.Group | 2022/day_1/src/main.rs:16-30 | the loop and the final push yield the groups |
| CalorieGroups.FirstIsMaximum | 2022/day_1/src/main.rs:33-37 | the first of a descending list bounds every member |
| CalorieGroups.TopThreeLargest | 2022/day_1/src/main.rs:40-43 | no three groups sum to more than the first three of the descending list |
| CalorieGroups.Report | 2022/day_1/src/main.rs:30-43 | groups sorted descending as a permutation; the maximum is a group bounding all; the top three is the sum of the three largest, `None` with fewer than three groups |

## Left out

- File and console I/O, logging and the renderers (`print_layout`, `print_layout_contiguous`, `Map::print`, the `Display` impls) are not modelled. Inputs are given as strings or as already-parsed values.
- Machine integer widths are not modelled: `usize`, `i8`, `i16`, `i32`, `i64` and `u32` are unbounded `int`/`nat`. This covers the overflow of the sums, the `i8` subtraction of 2024 day 2, the `i32` products of 2024 day 3 and the `u32` underflow of `get_priority` below code 38.
- `parse().unwrap()` panics on malformed numbers are not modelled; lines are given as the numbers they parse to.
- The regular expressions of 2024 day 3 are not modelled. The expression stream (`Mul`, `Do`, `Dont`) is the input.
- The 2023 day 1 regular expressions are modelled as a leftmost literal search for the words and as the first ASCII digit. Unicode digits are not modelled.
- Unordered containers (HashMap, HashSet in days 6, 8 and 10) are sets and maps. Iteration order is not modelled, because no result depends on it.
- The day 9 canonical input is not evaluated: the model proves the general properties instead of one checksum value.
- 2024 day 5: the sums of middle pages in `main` are not modelled; `HandleUpdate` and `FixPages` give each update's contribution.
- PageOrdering.FixPages: the `loop` has no termination argument in the source. The model carries a fuel bound and returns `None` when it runs out.
- 2024 day 7: the sum of solvable results in `main` is not modelled; `Subdivide` gives each line's verdict. A zero last factor makes `result % k` panic, modelled as `None`.
- 2024 day 2: the count of safe reports in `main` is not modelled; `ReportSafe` gives each line's verdict.
- ReportSafety.ReportSafe: a one-number line indexes `numbers[1]` and panics; the function requires a line that is empty or has at least two numbers.
- 2024 day 6: the `while !map.completed` driver may never end (a guard walking in a loop), so only single steps are modelled. An `Up` or `Left` step from row or column 0 wraps with `wrapping_sub` and is modelled as −1, off the grid.
- GuardWalk.Map.constructor: requires lines no longer than the first; a longer line indexes past the row and panics.
- LetterGrid.LetterGrid.constructor: requires lines no longer than the first, for the same reason.
- LetterGrid.LetterGrid.constructor: the width is the first line's `len()`, a count of bytes (2024/day_4/src/main.rs:28), while the model counts characters; the two agree on ASCII input, and a multi-byte character in the first line would make the source's rows wider than the model's.
- GuardWalk.Map.constructor: the width is likewise the first line's byte length (2024/day_6/src/main.rs:86), modelled as its character count; they agree on ASCII input.
- CityGrid.CityGrid.constructor: the width is likewise the first line's byte length (2024/day_8/src/main.rs:25), modelled as its character count; they agree on ASCII input.
- TrailMap.TopographicMap.constructor: requires a non-empty list of equal-length lines of digits, which is narrower than what `new` accepts. `new` takes the width from the first line and never compares rows (2024/day_10/src/main.rs:45-57): a longer later row is accepted, and a shorter one panics only when `get_viable_neighbours` indexes past its end (line 127). A non-digit panics on `unwrap` (line 50), and so does an input with no line (line 45). The rows come from `split('\n')` but the height from `lines()` (lines 44 and 47), so a trailing newline adds one empty row below the height, holding no cell and no trailhead; the model takes the lines without it.
- TrailMap.TopographicMap.Explore: on a grid that already has visited cells the score is only bounded below by the new distinct peaks; the exact count is stated for a reset grid, which is the only way `explore_all` calls it.
- The day 10 search terminates by a weight argument (`5^(9−h)` per stack entry). The source states none, and a grid is assumed to hold only digits.
- LetterGrid.LetterGrid.FindCrossMasPatterns: the per-centre halving is proved (`CrossMasCountedTwice`), but the regrouping of the grid-wide total by centre is not.
- CityGrid.CityGrid.constructor: on a ragged grid an antenna beyond the first line's width is not proved to be a harmonic antinode.
- The order of the antenna lists and the antinode vectors is not modelled past `CalculateAntinodes`.
- RunIndex.AddedFreeTotal: requires `len > 0 && pos in free ==> free[pos] == 0`. A non-empty run already at `pos` is overwritten by the final insert and the total would not grow by `len`. `move_file` never frees such a span.
- Rust's `sort` and `sort_by` are modelled by a verified insertion sort.
- 2022 day 3: `split_at` splits by bytes; the model splits by characters, which agrees on ASCII input.
- 2022 day 2: a non-empty line without a space makes `result_vec[1]` panic, modelled as `None` for the whole run.
- 2022 day 1: `unwrap` on the top three panics with fewer than three groups, modelled as `None`. The maximum always exists, because there is at least one group.
- 2023 day 1: a line without a digit makes `expect` panic, modelled as `None` for the whole run. `format!` of two digits followed by `parse` is modelled as `10·a + b`.

## Findings

| source | as written | input that shows it | evidently intended | confidence | as-written member | corrected member |
|---|---|---|---|---|---|---|
| 2024/day_7/src/main.rs:38-39 | returns true as soon as `result` equals the last factor, ignoring the earlier ones | result 5, factors `[3, 5]` | true only when some `+`/`×` chain over all factors gives `result` | not executed | EquationSolver.SubdivideAcceptsUnreachable | EquationSolver.SolvableIffReachable |
| 2024/day_7/src/main.rs:47-48 | when the last factor divides `result`, only division is tried | result 10, factors `[2, 3, 5]` (`2 + 3 = 5`, `5 + 5 = 10`) | try both division and subtraction | not executed | EquationSolver.SubdivideMissesSum | EquationSolver.SolvableIffReachable |
| 2024/day_2/src/main.rs:17-18 | the direction is fixed from the first two numbers before any removal | `[9, 1, 2]` (dropping 9 leaves an increasing safe report) | a report is safe when some single removal makes it safe in either direction | not executed | ReportSafety.DirectionFixedTooEarly | ReportSafety.ReportSafeCorrected |
| 2024/day_2/src/main.rs:49-60 | at the first bad pair only the later element (or the first element at index 0) is dropped | `[1, 2, 4, 3, 4]` (dropping the first 4 leaves a safe report) | any single removal may be tried | not executed | ReportSafety.OnlyLaterLevelDropped | ReportSafety.ReportSafeCorrected |
