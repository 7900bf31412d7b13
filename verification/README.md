# Advent of Code 2023 solvers, modelled in Dafny

This project models eighteen of the repository's Advent of Code 2023 solvers:
days 1–11, 13–17, 19 and 22, each a Rust binary `aoc-NN/src/main.rs`.
Each day gets one Dafny module, in one file per day.
The module holds the day's parser, its part-one and part-two computations, and the
helpers those call, all written as pure functions over immutable data. The in-place
routines (the day-17 Dijkstra search, the day-22 `settle` loop) are methods with loop
invariants. Each module also proves the properties the puzzle text and the code rely on:
- round trips and reference definitions, such as the gear-ratio pairing, the lens
  boxes acting as a map, and the accepted rating boxes agreeing with the rule walk;
- invariants the in-place routines keep;
- optimality of the search results;
- termination of the loops that the source leaves implicit.

Several small modules are shared by the days:

| module | file | contents |
|---|---|---|
| `Wrappers` | `common_wrappers.dfy` | `Option`, which stands for every `unwrap`, `unreachable!` or indexing panic of the source |
| `Text` | `common_text.dfy` | the `str` methods the parsers use: `lines`, `split`, `split_once`, `split_whitespace`, `trim`, `find`, unsigned `parse` |
| `Seqs` | `common_seqs.dfy` | sums, `min`, `max`, `sort_unstable` and element-wise mapping |
| `Arith` | `common_arith.dfy` | gcd and lcm, in place of the `num` crate's `lcm` |
| `Orbits` | `common_orbits.dfy` | the tortoise-and-hare cycle search used by day 14 |

Every day module is named after its puzzle:

| day | module | file |
|---|---|---|
| 1 | `Trebuchet` | `day01_trebuchet.dfy` |
| 2 | `CubeConundrum` | `day02_cubes.dfy` |
| 3 | `GearRatios` | `day03_gears.dfy` |
| 4 | `Scratchcards` | `day04_scratchcards.dfy` |
| 5 | `Almanac` | `day05_almanac.dfy` |
| 6 | `BoatRaces` | `day06_races.dfy` |
| 7 | `CamelCards`, `CardGroups` | `day07_camel.dfy`, `day07_groups.dfy` |
| 8 | `HauntedWasteland` | `day08_wasteland.dfy` |
| 9 | `MirageMaintenance` | `day09_mirage.dfy` |
| 10 | `PipeMaze` | `day10_pipes.dfy` |
| 11 | `CosmicExpansion` | `day11_expansion.dfy` |
| 13 | `PointOfIncidence` | `day13_mirrors.dfy` |
| 14 | `ParabolicDish` | `day14_dish.dfy` |
| 15 | `LensLibrary` | `day15_lens.dfy` |
| 16 | `FloorLava` | `day16_lava.dfy` |
| 17 | `ClumsyCrucible` | `day17_crucible.dfy` |
| 19 | `Aplenty` | `day19_aplenty.dfy` |
| 22 | `SandSlabs` | `day22_sand.dfy` |

Reading a file and printing an answer are I/O, so they are not modelled.
Every parser takes the file's text as a string. A part that can panic
returns `Option`, and the result is `None` exactly where the Rust code
would panic. The parts that cannot panic on the inputs they accept return
a plain number: day 10's part two, both parts of day 11, day 15's part
one, and day 22's part two, which takes the bricks day 22's parser
produces.

## Model

| member | source | states |
|---|---|---|
| Trebuchet.FirstDigit | aoc-01/src/main.rs:16-22 | the value of the first digit character of the line, no digit before it; nothing exactly when the line has no digit (the `unwrap` panic) |
| Trebuchet.LastDigit | aoc-01/src/main.rs:23-30 | the value of the last digit character, no digit after it; nothing exactly when the line has no digit |
| Trebuchet.NameFrom | aoc-01/src/main.rs:68-75 | the first spelled name, in the order "zero".."nine", that starts (or ends) the text; nothing exactly when no name does |
| Trebuchet.PrefixDigit | aoc-01/src/main.rs:62-77 | a value below 10 exactly when the text starts with a digit or a spelled name; a leading digit wins over the names |
| Trebuchet.SuffixDigit | aoc-01/src/main.rs:45-77 | a value below 10 exactly when the text ends with a digit or a spelled name; a trailing digit wins |
| Trebuchet.FirstFrom | aoc-01/src/main.rs:37-43 | the reading of the first suffix `line[i..]` (from i = k on) that starts with a digit or name, none earlier; nothing exactly when no suffix reads |
| Trebuchet.FirstDigitTwo | aoc-01/src/main.rs:37-43 | the same search over the whole line |
| Trebuchet.LastFrom | aoc-01/src/main.rs:44-50 | the reading of the longest prefix `line[..i]` (i <= n) that ends with a digit or name, none longer; nothing exactly when no prefix reads |
| Trebuchet.LastDigitTwo | aoc-01/src/main.rs:44-50 | the same search over the whole line |
| Trebuchet.Calibrate | aoc-01/src/main.rs:59 | `tens * 10 + ones` is at most 99 and splits back into its two digits; defined exactly when both are |
| Trebuchet.LineOne | aoc-01/src/main.rs:13-32 | a part-one line value exists exactly when the line has a digit, and is ten times its first digit plus its last digit |
| Trebuchet.LineTwo | aoc-01/src/main.rs:34-52 | a part-two line value exists exactly when both ends read as a digit, and is ten times the front reading plus the back reading |
| Trebuchet.SumLines | aoc-01/src/main.rs:54-60 | the sum exists exactly when every line has a value, and is then the total of the line values (`Seqs.Total`), at most 99 per line |
| Trebuchet.PartOne | aoc-01/src/main.rs:13-32 | part one has an answer exactly when every line contains a digit, and it is the total of the part-one line values |
| Trebuchet.PartTwo | aoc-01/src/main.rs:34-52 | part two has an answer exactly when every line reads at both ends, and it is the total of the part-two line values |
| Trebuchet.DigitsSufficeForPartTwo | aoc-01/src/main.rs:37-50 | a line that has a part-one value at an end also has a part-two value there |
| Trebuchet.OverlappingNames | aoc-01/src/main.rs:37-50 | the two ends are searched independently: "twone" reads 21 |
| CubeConundrum.GameInfo | aoc-02/src/main.rs:46-50 | the id parsed between column 5 and the first ':' and the text after that ':'; nothing exactly when there is no ':', it comes before column 5, or the id is not a number |
| CubeConundrum.ColorIndex | aoc-02/src/main.rs:59-62 | the position of the colour name in red, green, blue; nothing exactly when it is none of them |
| CubeConundrum.ParseDraw | aoc-02/src/main.rs:55-64 | the quantity is the first word's number and the colour the second word's index; nothing exactly when either is missing or unreadable |
| CubeConundrum.Items | aoc-02/src/main.rs:54 | splitting on ';' and then each set on ',' gives the same pieces as one split at every ';' and ','; no item holds either separator |
| CubeConundrum.ParseItems | aoc-02/src/main.rs:53-66 | each item is parsed on its own, in order |
| CubeConundrum.Collect | aoc-02/src/main.rs:53-66 | the draws exist exactly when every item parses, and are the parsed items |
| CubeConundrum.Possible | aoc-02/src/main.rs:30-32 | true exactly when every draw is within 12 red, 13 green, 14 blue; false exactly when the first failing item is a parsed draw over the limit with every earlier item within it (the lazy `all` stops there) |
| CubeConundrum.Maxima | aoc-02/src/main.rs:35-39 | per colour, an upper bound of every quantity drawn that is itself drawn, or 0 when the colour is never drawn |
| CubeConundrum.Power | aoc-02/src/main.rs:34-43 | defined exactly when every item parses, and then the product of the three per-colour maxima of the draws |
| CubeConundrum.PowerZero | aoc-02/src/main.rs:34-43 | a power is 0 exactly when some colour never appears with a positive quantity |
| CubeConundrum.PossiblePowerBound | aoc-02/src/main.rs:30-43 | a possible game has a power of at most 12 * 13 * 14 |
| CubeConundrum.LineOne | aoc-02/src/main.rs:13-20 | a line has a share exactly when its header reads and the lazy `all` over its items stops without a panic (every item fits, or an item over the limit comes before any that fails to parse); the share is its id when the game is possible and 0 otherwise |
| CubeConundrum.LineTwo | aoc-02/src/main.rs:22-28 | a line's share of part two is the power of its game; it exists exactly when the header is readable and every item parses |
| CubeConundrum.SumOne | aoc-02/src/main.rs:13-20 | part one is defined exactly when every line is, and is then the total of the lines' shares, non-negative |
| CubeConundrum.SumTwo | aoc-02/src/main.rs:22-28 | part two is defined exactly when every line is, and is then the total of the lines' powers, non-negative |
| CubeConundrum.PartOne | aoc-02/src/main.rs:13-20 | part one over the input's lines: defined exactly when every line has a share, and then the total of the shares |
| CubeConundrum.PartTwo | aoc-02/src/main.rs:22-28 | part two over the input's lines: defined exactly when every line has a power, and then the total of the powers |
| CubeConundrum.ItemsSplitBoth | aoc-02/src/main.rs:54 | the two-stage split (';' then ',') equals a single split on both separators, for every text |
| GearRatios.RunEnd | aoc-03/src/main.rs:31-35 | the end of the digit run from `i`: every column before it is a digit and it is the row's end or not a digit |
| GearRatios.RowRuns | aoc-03/src/main.rs:26-58 | the runs found in a row are maximal digit runs from the starting column on, in increasing, non-touching order |
| GearRatios.RowRunsCover | aoc-03/src/main.rs:26-58 | every digit of the row from the starting column on lies in a run the scan finds |
| GearRatios.RowRunsOrdered | aoc-03/src/main.rs:26-58 | any two runs of one row are disjoint and in column order |
| GearRatios.GridRuns | aoc-03/src/main.rs:25-59 | every run found over the grid is a maximal digit run of its row |
| GearRatios.GridRunsCover | aoc-03/src/main.rs:25-59 | every digit of the grid lies in a reported run |
| GearRatios.GridRunsDisjoint | aoc-03/src/main.rs:25-59 | no two reported runs share a cell |
| GearRatios.Span | aoc-03/src/main.rs:80-92 | the cells of one row between two columns, each listed once |
| GearRatios.Above | aoc-03/src/main.rs:74-89 | the row above, from `start - 1` (saturating) to `end + 1` (capped), when there is a row above |
| GearRatios.Below | aoc-03/src/main.rs:74-101 | the row below over the same columns, when there is a row below |
| GearRatios.LeftCell | aoc-03/src/main.rs:103-112 | the cell left of the number, when the number does not start the row |
| GearRatios.RightCell | aoc-03/src/main.rs:114-123 | the cell right of the number, when its end column is below the guard's limit |
| GearRatios.CheckedWith | aoc-03/src/main.rs:65-126 | the visited cells are the neighbours of the number except the right cell when the guard excludes it, each once |
| GearRatios.CheckedAsWritten | aoc-03/src/main.rs:114-123 | with the guard `end < GRID_SIZE - 1`, the visited cells are all the neighbours except the right cell of a number ending at column 138 |
| GearRatios.RightEdgeMissed | aoc-03/src/main.rs:114-123 | a number ending at column 138 has column 139 as a neighbour, and that cell is never visited |
| GearRatios.Checked | aoc-03/src/main.rs:65-126 | with the guard `end < GRID_SIZE`, the visited cells are exactly the neighbours, each once |
| GearRatios.AdjacentIff | aoc-03/src/main.rs:77-125 | a number is a part number exactly when some neighbouring cell is not '.' |
| GearRatios.Toggle | aoc-03/src/main.rs:42-48 | a '*' cell enters the gear table if absent and leaves it if present; no other entry changes and the ratio sum never falls |
| GearRatios.ReplayPairs | aoc-03/src/main.rs:42-48 | after a sequence of touches a cell waits in the table exactly when touched an odd number of times, holding its latest number, and the ratio sum is that of pairing consecutive touches |
| GearRatios.ReplayPending | aoc-03/src/main.rs:42-48 | a cell waits in the table exactly when touched an odd number of times, with its latest number |
| GearRatios.Stars | aoc-03/src/main.rs:85-122 | each gear touch of a number is a neighbouring '*' carrying the number's value |
| GearRatios.StarsFrom | aoc-03/src/main.rs:85-122 | every neighbouring '*' among the visited cells is touched with the number's value, and only those |
| GearRatios.PartSumBounds | aoc-03/src/main.rs:50-52 | the part-number sum is at most the sum of all numbers, and 0 when no number is adjacent to a symbol |
| GearRatios.ParseInput | aoc-03/src/main.rs:10-14 | the grid is the first 140 characters of the first 140 lines; nothing exactly when a line is missing or short |
| GearRatios.Solve | aoc-03/src/main.rs:19-63 | the two answers are the part-number sum over the runs the scan finds and the ratio sum of their paired gear touches, with the corrected right-edge check (see Findings) |
| Scratchcards.ParseNumbers | aoc-04/src/main.rs:46-54 | every word read as a number, in order; nothing exactly when some word is not a number |
| Scratchcards.CardInfo | aoc-04/src/main.rs:40-57 | the winning numbers are the words before the first '|' after column 9 and the drawn numbers those after it (up to any second '|'); nothing exactly when the line is shorter than 9 characters, has no '|' from column 9 on, or a word of either list is not a number |
| Scratchcards.Matches | aoc-04/src/main.rs:18-29 | the count of drawn numbers found among the winning ones, at most the number drawn; 0 exactly when none is found and all exactly when every one is |
| Scratchcards.ScoreDoubles | aoc-04/src/main.rs:19 | `(1 << w) >> 1` is 0 for no match and otherwise 2 to the power w - 1: 1 for the first match, doubling with each further one |
| Scratchcards.WonSaturates | aoc-04/src/main.rs:27-34 | cards at or after card `j` never add copies of card `j` |
| Scratchcards.CountCopies | aoc-04/src/main.rs:24-37 | each slot ends holding the card itself plus the copies won by the cards before it (each card adding its own count to the next `w` slots); nothing exactly when a card would win past the last slot |
| Scratchcards.TotalAtLeastSlots | aoc-04/src/main.rs:25-36 | every slot starts at 1, so the total is at least the number of slots |
| Scratchcards.CardScore | aoc-04/src/main.rs:17-20 | a card's part-one score exists exactly when the card parses, and is 0 without a match and otherwise 2 to the power of one less than its matches |
| Scratchcards.PartOne | aoc-04/src/main.rs:13-22 | part one is defined exactly when every card parses, and is then the total of the card scores, non-negative |
| Scratchcards.CardWins | aoc-04/src/main.rs:27-29 | a card's match count exists exactly when the card parses, and is the number of its drawn numbers found among the winning ones |
| Scratchcards.PartTwo | aoc-04/src/main.rs:24-37 | defined exactly when every card parses and none wins past the last slot; then the total, over the slots, of the copies each ends with (the card plus what the earlier cards won), at least the number of slots |
| Almanac.FirstRange | aoc-05/src/main.rs:61-63 | the index of the first range covering the number, none before it covering it; nothing exactly when no range covers it |
| Almanac.ApplyUncovered | aoc-05/src/main.rs:60-67 | a number no range covers passes a map unchanged |
| Almanac.ApplyCovered | aoc-05/src/main.rs:60-67 | with non-overlapping ranges, any covering range decides the image `dst + (seed - src)` |
| Almanac.ApplyShifts | aoc-05/src/main.rs:65 | a covered number moves by its first covering range's offset `dst - src` |
| Almanac.FindLocationAppend | aoc-05/src/main.rs:59-70 | running maps `a` then `b` is running `a` and feeding its output to `b` |
| Almanac.FindLocationIdentity | aoc-05/src/main.rs:59-70 | maps with no ranges leave every seed unchanged |
| Almanac.PartOne | aoc-05/src/main.rs:21-28 | the least location over the listed seeds, attained by one of them; nothing exactly when there are no seeds |
| Almanac.BoundsTile | aoc-05/src/main.rs:42-43 | the worker chunk bounds start at the range start, end at its end and never decrease |
| Almanac.ChunkOf | aoc-05/src/main.rs:40-52 | every seed of the range lies in some worker's chunk |
| Almanac.ChunksDisjoint | aoc-05/src/main.rs:40-52 | no seed lies in two workers' chunks |
| Almanac.EmptyFirstChunk | aoc-05/src/main.rs:42-48 | a range with fewer seeds than workers gives the first worker an empty chunk, whose `min().unwrap()` panics |
| Almanac.ChunksNonEmpty | aoc-05/src/main.rs:42-48 | with at least one seed per worker, every chunk is non-empty |
| Almanac.ChunkMin | aoc-05/src/main.rs:45-48 | one worker's minimum: a location attained in its chunk and no larger than any location there |
| Almanac.PairMin | aoc-05/src/main.rs:36-55 | the minimum of the workers' chunk minima over one pair range is the least location of the whole range, and is attained in it |
| Almanac.Pairs | aoc-05/src/main.rs:33 | `chunks_exact(2)` gives the (start, length) pairs in order and drops an odd last seed |
| Almanac.PartTwo | aoc-05/src/main.rs:30-57 | the least location over all seed-pair ranges, attained unless it is `u64::MAX` (no ranges); nothing exactly when some range is shorter than the worker count |
| Almanac.ParseRange | aoc-05/src/main.rs:118-124 | a range line parses exactly when its first three words are numbers, and the range's destination, source and length are those three numbers in that order |
| Almanac.BlockEnd | aoc-05/src/main.rs:109-116 | the first empty line at or after the position, or the end of the input |
| Almanac.BlockEndIs | aoc-05/src/main.rs:109-116 | the block end is the only position with those properties |
| Almanac.ReadRanges | aoc-05/src/main.rs:109-127 | the ranges of every line up to the block end, in order, and the position after the empty line that ends the block; nothing exactly when one of those lines does not parse |
| Almanac.ParseMappingAsWritten | aoc-05/src/main.rs:103-128 | after a fixed skip of two lines, the ranges of every line up to the next empty line, in order, and the position after that empty line; nothing exactly when one of those lines does not parse |
| Almanac.SkipSwallowsRange | aoc-05/src/main.rs:106-116 | after a block whose ending blank line was consumed, the two-line skip swallows the next block's first range line |
| Almanac.ParseMapping | aoc-05/src/main.rs:103-128 | the corrected reader (see Findings) stays inside the input |
| Almanac.ParseMappingReadsBlock | aoc-05/src/main.rs:103-128 | whatever blank lines come first, the corrected reader skips exactly the header and reads every range line of the block |
| Almanac.ParseMappingSkipsHeader | aoc-05/src/main.rs:103-128 | on any input the corrected reader skips the blank lines and the one header line, then gives the ranges of every line up to the next empty line in order, and nothing exactly when one of them does not parse |
| Almanac.ParseMappings | aoc-05/src/main.rs:95 | `from_fn` reads exactly the requested number of maps, each with the corrected reader |
| Almanac.ParseMappingsBlocks | aoc-05/src/main.rs:95 | reading `n` maps succeeds exactly when each of `n` successive reads does, and map `k` is what the reader gives at the position where map `k - 1` ended (`ReadAt`); with `ParseMappingSkipsHeader` that is the ranges of the `k`-th block, line by line |
| Almanac.ReadAtShift | aoc-05/src/main.rs:95 | map `k + 1` read from a position is map `k` read from the end of the first block |
| Almanac.ParseInput | aoc-05/src/main.rs:84-101 | a parsed almanac holds the numbers of the first line's words after the first, in order, and exactly seven maps, map `k` being the one read at the position after `k` maps from the second line (`ReadAt`); nothing exactly when there are no lines, a seed word is not a number, or one of the seven reads fails |
| BoatRaces.CountBelow | aoc-06/src/main.rs:27-29 | the count of winning hold times in `1..n` is at most `n - 1` |
| BoatRaces.WaysToWin | aoc-06/src/main.rs:26-30 | the loop counts exactly the winning hold times in `1..time`, at most `time - 1` of them |
| BoatRaces.WinsSymmetric | aoc-06/src/main.rs:28 | holding `h` wins exactly when holding `time - h` does |
| BoatRaces.WinsBetween | aoc-06/src/main.rs:28 | a hold time between two winning ones also wins |
| BoatRaces.CountInterval | aoc-06/src/main.rs:27-29 | when the winners form an interval `lo..=hi`, the count below `n` is the part of the interval below `n` |
| BoatRaces.WinnersInterval | aoc-06/src/main.rs:27-29 | with `lo` the least winning hold time, the winners are exactly `lo..=time-lo`, so there are `time - 2*lo + 1` |
| BoatRaces.ProductOfWays | aoc-06/src/main.rs:13-19 | the product of the winning counts of the races; nothing exactly when there are no races (the `reduce().unwrap()` panic) |
| BoatRaces.Tail | aoc-06/src/main.rs:41-67 | the text of a line from column 10 on; nothing exactly when the line is missing or shorter than 10 |
| BoatRaces.RacesOf | aoc-06/src/main.rs:41-53 | one race per time word, race `i`'s time being the `i`-th time and its record the `i`-th record word, 0 when there are fewer records; nothing exactly when a time, or a record among the first `races + 1` that `zip` reads, is not a number |
| BoatRaces.ParseRaces | aoc-06/src/main.rs:38-56 | nothing exactly when either of the first two lines is missing or shorter than 10 bytes, a time word is not a number, or a record word among those `zip` reads (one past the last race) is not a number; otherwise the races of the words of the two lines from column 10 |
| BoatRaces.Kerned | aoc-06/src/main.rs:63-71 | the words of a line joined without separators and read as one number are the number the line's non-space characters write |
| BoatRaces.ParseRace | aoc-06/src/main.rs:58-74 | time and record are the words of each line from column 10, joined and read as one number; nothing exactly when either line is missing or shorter than 10 bytes or a joined text is not a number |
| BoatRaces.PartOne | aoc-06/src/main.rs:13-19 | defined exactly when both lines parse with at least one race, and then the product of the races' winning counts |
| BoatRaces.PartTwo | aoc-06/src/main.rs:21-24 | the winning count of the kerned race, defined exactly when that race parses |
| CamelCards.CardValue | aoc-07/src/main.rs:122-130 | digits map to their value and T, J, Q, K, A to 10..14; nothing exactly for any other character (`unreachable!`) |
| CamelCards.CardValueInjective | aoc-07/src/main.rs:122-130 | different card characters get different values |
| CamelCards.ParseHand | aoc-07/src/main.rs:117-136 | the first word is exactly five card characters read by the card mapping and the second word is the bid; nothing exactly when the line has fewer than two words, the first is not five characters long, one of them is not a card, or the bid is not a number |
| CardGroups.Runs | aoc-07/src/main.rs:83-91 | there are at most as many runs as cards, and at least one for a non-empty hand |
| CardGroups.RunsShape | aoc-07/src/main.rs:83-91 | every run holds at least one card and the runs hold all the cards |
| CardGroups.RunsBlock | aoc-07/src/main.rs:83-91 | a block of equal cards after a different card adds exactly one run of its length |
| CardGroups.RunsNew | aoc-07/src/main.rs:84-88 | a card unlike its predecessor opens a new run |
| CardGroups.RunsSame | aoc-07/src/main.rs:83-89 | a card like its predecessor extends the last run |
| CamelCards.SortDesc | aoc-07/src/main.rs:93-94 | sorting then reversing gives a permutation in non-increasing order |
| CamelCards.TypeVector | aoc-07/src/main.rs:77-96 | the lengths buffer is five long, non-increasing, and a rearrangement of the runs followed by zeros |
| CamelCards.TypeVectorMax | aoc-07/src/main.rs:93-94 | a non-increasing rearrangement of the padded runs starts with the largest run, which is one of them |
| CamelCards.SequenceLengthsSlice | aoc-07/src/main.rs:77-96 | the index-bookkeeping scan writes exactly the padded runs, then sorts them largest first |
| CamelCards.ScanRuns | aoc-07/src/main.rs:78-89 | after the loop the buffer holds every run but the last, then zeros, and `sequence_start` is where the last run begins |
| CamelCards.CloseRun | aoc-07/src/main.rs:84-91 | writing the length of a finished block appends it to the runs written so far |
| CardGroups.SortedRuns | aoc-07/src/main.rs:60-91 | on sorted cards the runs the scan finds are the group sizes: the number of copies of each distinct card, by increasing card |
| CamelCards.TypeOne | aoc-07/src/main.rs:60-63 | part one's type vector is the hand's group sizes, largest first, padded with zeros to five, so it depends only on how many copies of each card the hand holds |
| CamelCards.TypeOneSum | aoc-07/src/main.rs:60-63 | part one's group sizes add up to the number of cards |
| CamelCards.PaddedSum | aoc-07/src/main.rs:79-94 | any rearrangement of the runs followed by zeros has the sum of the runs |
| CamelCards.PartitionPoint | aoc-07/src/main.rs:70 | the first index whose card is not below the bound; all before it are below |
| CamelCards.Rejoker | aoc-07/src/main.rs:66 | jacks become 15: the other cards keep their counts and 15 is held as often as jacks were |
| CamelCards.TypeTwo | aoc-07/src/main.rs:65-75 | for cards below 15, as parsed cards are, part two's type vector is the type of the cards other than jacks with the number of jacks added to its largest group |
| CamelCards.CutCounts | aoc-07/src/main.rs:68-70 | cutting the sorted cards at the partition point for 15 leaves the cards below 15 before the cut and as many cards as there are 15s after it |
| CamelCards.BumpFirst | aoc-07/src/main.rs:73 | adding the jokers to the first group changes only that entry and grows the sum by the joker count |
| CamelCards.TypeTwoSum | aoc-07/src/main.rs:65-75 | with jokers the group sizes still add up to the number of cards |
| CamelCards.AllJokers | aoc-07/src/main.rs:65-75 | a hand of only jokers is a single group of all its cards |
| CamelCards.NoJokers | aoc-07/src/main.rs:60-75 | without jokers, parts one and two give the same type |
| CamelCards.CmpTypeByRank | aoc-07/src/main.rs:98-112 | `cmp_type` compares a rank (largest group, then full house / two pair), and ties exactly when the ranks are equal |
| CamelCards.CmpTypeAntisymmetric | aoc-07/src/main.rs:98-112 | swapping the hands reverses `cmp_type` and keeps its ties |
| CamelCards.LexProperties | aoc-07/src/main.rs:45-55 | lexicographic comparison is equal exactly on equal arrays and reverses when swapped |
| CamelCards.LexTransitive | aoc-07/src/main.rs:45-55 | lexicographic comparison is transitive, strictly when one step is strict |
| CamelCards.TieCards | aoc-07/src/main.rs:45-55 | in part two every jack compares as 1 and every other card keeps its value; in part one all cards keep their values |
| CamelCards.TypeFor | aoc-07/src/main.rs:42-50 | part one's order uses the hand's counted type, part two's the type with jacks joining the largest group |
| CamelCards.Key | aoc-07/src/main.rs:41-57 | a sort key is six long: the rank of the part's type, then the part's tie-break cards |
| CamelCards.CmpIsKeyOrder | aoc-07/src/main.rs:41-57 | for any type vectors and tie-break cards, the comparator is the lexicographic order of the keys (rank, then cards) |
| CamelCards.CmpEqual | aoc-07/src/main.rs:41-57 | two hands compare equal exactly when their types have the same rank and they hold the same cards, so exactly when they hold the same cards |
| CamelCards.KeyInjective | aoc-07/src/main.rs:41-57 | two hands have the same key exactly when their types have the same rank and they hold the same cards |
| CamelCards.TieCardsInjective | aoc-07/src/main.rs:53-54 | re-valuing jokers to 1 loses nothing, as no other card is worth 1 |
| CamelCards.CmpAntisymmetric | aoc-07/src/main.rs:41-57 | for any type vectors and tie-break cards, swapping the hands reverses the comparison |
| CamelCards.CmpTransitive | aoc-07/src/main.rs:41-57 | for any type vectors and tie-break cards the comparison is transitive, so it is a total order the sort can use |
| CamelCards.InsertEntry | aoc-07/src/main.rs:17-26 | inserting into a sorted list keeps it sorted and adds exactly the entry |
| CamelCards.SortEntries | aoc-07/src/main.rs:17-26 | the sorted hands are a permutation of the hands, in key order |
| CamelCards.Winnings | aoc-07/src/main.rs:19-22 | the winnings of a sorted list of hands are never negative; their value is stated by `WinningsIsSum` |
| CamelCards.WinningsIsSum | aoc-07/src/main.rs:19-22 | the winnings are the sum over the sorted hands of position, counted from one, times bid |
| CamelCards.SortedPairs | aoc-07/src/main.rs:17-26 | in a sorted list every earlier hand is no greater than every later one |
| CamelCards.SortedUnique | aoc-07/src/main.rs:17-26 | with distinct keys there is only one sorted order, so the unstable sort's choice does not change the winnings |
| CamelCards.LeastIsFirst | aoc-07/src/main.rs:17-26 | two sorted orders of the same hands with distinct keys start with the same hand |
| CamelCards.Entries | aoc-07/src/main.rs:16-32 | each hand becomes its key under the part's order together with its bid |
| CamelCards.Solve | aoc-07/src/main.rs:16-32 | an answer exists exactly when every line parses; it is then the sum, over the hands sorted by the part's key order, of position counted from one times bid |
| HauntedWasteland.Direction | aoc-08/src/main.rs:61 | 'L' is direction 0 and every other character direction 1 |
| HauntedWasteland.FirstHitUnique | aoc-08/src/main.rs:42-49 | there is at most one first step count at which the condition holds |
| HauntedWasteland.Steps | aoc-08/src/main.rs:40-51 | the loop from step `count` returns a count between `count` and the fuel |
| HauntedWasteland.StepsCorrect | aoc-08/src/main.rs:40-51 | the loop, from any step reached without a hit, returns the first hit and gives up only when no hit lies within the fuel |
| HauntedWasteland.WalkStuck | aoc-08/src/main.rs:47 | once the walk reaches a label outside the map it panics at every later step |
| HauntedWasteland.StepCount | aoc-08/src/main.rs:31-52 | with no directions the cycle is empty and the count is 0; when the start already meets the condition the count is 0; any count lies within the fuel |
| HauntedWasteland.StepCountCorrect | aoc-08/src/main.rs:31-52 | `step_count` is the first step count whose location meets the condition (0 when the start does), or nothing when none lies within the fuel |
| HauntedWasteland.PartOne | aoc-08/src/main.rs:18-20 | with no directions the answer is 0; otherwise it is the first step at which the walk from AAA is at ZZZ, and nothing only when no step within the fuel is at ZZZ |
| HauntedWasteland.LcmAllLeast | aoc-08/src/main.rs:27 | the folded lcm is a multiple of every count and divides every common multiple |
| HauntedWasteland.LcmAllOrderFree | aoc-08/src/main.rs:23-28 | the `HashMap` key order does not matter: the same counts in any order fold to the same lcm |
| HauntedWasteland.Counts | aoc-08/src/main.rs:26 | each start's count is its `step_count` to a label ending in 'Z'; nothing exactly when one of those fails |
| HauntedWasteland.PartTwo | aoc-08/src/main.rs:22-29 | the answer is the least common multiple of the starts' first-hit counts: a multiple of each, and a divisor of every common multiple; nothing when there is no start (the `reduce().unwrap()` panic) or a count fails |
| HauntedWasteland.ParseNode | aoc-08/src/main.rs:67-75 | a node line gives the label in columns 0..3 and the successors in 7..10 and 12..15; nothing exactly when the line is shorter than 15 |
| HauntedWasteland.Collect | aoc-08/src/main.rs:66-76 | the collected map has exactly the labels of the node lines |
| HauntedWasteland.CollectLast | aoc-08/src/main.rs:66-76 | a label maps to the node of its last line |
| HauntedWasteland.ParseLines | aoc-08/src/main.rs:54-79 | the directions are the first line's characters mapped one by one, one line is skipped, the map's keys are exactly the node lines' labels, and a label whose last line is `i` maps to the successors in columns 7..10 and 12..15 of line `i`; nothing exactly when there is no first line or a node line is too short |
| HauntedWasteland.NodesFound | aoc-08/src/main.rs:66-76 | when every node line parses, each is long enough, the collected map's keys are exactly the node lines' labels, and a label maps to the successors of its last line |
| HauntedWasteland.NodesOnly | aoc-08/src/main.rs:66-76 | `collect()` adds no key that is not the label of some node line |
| HauntedWasteland.NodeOfLastLine | aoc-08/src/main.rs:66-76 | the collected map sends the label of a node line that no later line repeats to that line's two successors |
| HauntedWasteland.NodesCollected | aoc-08/src/main.rs:66-76 | every node line's label is a key of the map |
| MirageMaintenance.Diffs | aoc-09/src/main.rs:27-30 | one entry fewer than the row, none for an empty row |
| MirageMaintenance.DiffsFrom | aoc-09/src/main.rs:27-30 | one difference per window that starts at `k` or later |
| MirageMaintenance.DiffsFromAt | aoc-09/src/main.rs:27-30 | the `i`-th window from `k` on is the difference of readings `k + i + 1` and `k + i` |
| MirageMaintenance.DiffsAt | aoc-09/src/main.rs:27-30 | each difference is that of two consecutive readings |
| MirageMaintenance.DiffsFromAppend | aoc-09/src/main.rs:27-30 | appending a reading adds exactly one window at the end |
| MirageMaintenance.DiffsAppend | aoc-09/src/main.rs:27-30 | appending a reading appends its change from the last reading to the differences |
| MirageMaintenance.Extrapolate | aoc-09/src/main.rs:22-33 | 0 for a row of zeros; nothing for a single non-zero reading, where `last().unwrap()` panics |
| MirageMaintenance.ExtrapolateIsNext | aoc-09/src/main.rs:22-33 | `extrapolate` gives a value exactly when the difference table reaches a row of zeros, and the last reading plus that value, appended, leaves the table reaching zeros at the same row |
| MirageMaintenance.NextStep | aoc-09/src/main.rs:27-32 | a next reading of the differences plus the last reading is a next reading of the row, one row deeper |
| MirageMaintenance.NextBack | aoc-09/src/main.rs:27-32 | a next reading of the row less its last reading is a next reading of the differences |
| MirageMaintenance.NextUnique | aoc-09/src/main.rs:22-33 | a row has at most one next reading, so the extrapolated one is the only one |
| MirageMaintenance.DiffsTelescope | aoc-09/src/main.rs:27-30 | the differences add up to the last reading minus the first |
| MirageMaintenance.DiffsFront | aoc-09/src/main.rs:27-30 | dropping the last reading drops exactly the last difference |
| MirageMaintenance.DiffsReverse | aoc-09/src/main.rs:18-30 | reversing a history reverses and negates its differences |
| MirageMaintenance.ConstantRow | aoc-09/src/main.rs:22-33 | a constant history of two or more readings extrapolates a change of 0; a single non-zero reading panics |
| MirageMaintenance.ArithmeticRow | aoc-09/src/main.rs:14-33 | an arithmetic history of three or more readings extrapolates its step |
| MirageMaintenance.ArithmeticReversed | aoc-09/src/main.rs:17-20 | reversed, an arithmetic history steps backwards, so part two extrapolates minus the step |
| MirageMaintenance.ParseHistory | aoc-09/src/main.rs:38-41 | the first 21 words read as integers; nothing exactly when a word is missing or is not a number |
| MirageMaintenance.Next | aoc-09/src/main.rs:14 | the last reading plus `extrapolate`: defined exactly when the table reaches zeros, and then a next reading |
| MirageMaintenance.LineOne | aoc-09/src/main.rs:14 | a line's contribution to part one: defined exactly when it parses and its table reaches zeros, and then the next reading of its history |
| MirageMaintenance.LineTwo | aoc-09/src/main.rs:18-19 | the same for the reversed history, i.e. the reading before the first |
| MirageMaintenance.PartOne | aoc-09/src/main.rs:13-15 | defined exactly when every line is, and then the sum of the lines' next readings |
| MirageMaintenance.PartTwo | aoc-09/src/main.rs:17-20 | defined exactly when every line is, and then the sum of the lines' previous readings |
| PipeMaze.Adj | aoc-10/src/main.rs:96-102 | the orthogonal neighbours of a cell whose two components lie in `0..lim`, at most four |
| PipeMaze.Ends | aoc-10/src/main.rs:104-116 | the two different orthogonal neighbours a pipe joins; nothing exactly when the tile is not a pipe |
| PipeMaze.EndsShape | aoc-10/src/main.rs:105-111 | '|' joins the tiles above and below, '-' those left and right, and a corner one vertical and one horizontal neighbour |
| PipeMaze.Increment | aoc-10/src/main.rs:87-93 | the walker moves to an end of its pipe other than the tile it came from, the first end in the pipe table's order whenever that is not the previous tile (`find`); nothing exactly when it stands off the field or off a pipe (the `unwrap` panic) |
| PipeMaze.GapBetween | aoc-10/src/main.rs:118-134 | the intermediate cell touches both doubled tiles and has exactly one odd component |
| PipeMaze.Walk | aoc-10/src/main.rs:24-33 | the loop ends with both walkers on the same tile, within the fuel |
| PipeMaze.WalkBroken | aoc-10/src/main.rs:24-30 | while the walkers are apart, a walker off the field or off a pipe makes the loop panic |
| PipeMaze.WalkComplete | aoc-10/src/main.rs:24-33 | when the walkers first meet after `n` rounds and the fuel allows `n` rounds, the loop finishes |
| PipeMaze.MeetAtShift | aoc-10/src/main.rs:24-33 | walkers apart now that first meet after `n` rounds first meet after `n - 1` rounds from their next tiles |
| PipeMaze.WalksFirst | aoc-10/src/main.rs:29 | `n > 0` increments are the first increment followed by `n - 1` more |
| PipeMaze.WalkStep | aoc-10/src/main.rs:24-33 | walkers apart that can both step finish exactly when they finish from their next tiles with one round less |
| PipeMaze.WalkDefined | aoc-10/src/main.rs:24-33 | the loop finishes exactly when the walkers first meet within the fuel |
| PipeMaze.WalkFirstMeeting | aoc-10/src/main.rs:24-37 | the walk stops after the first round in which the walkers meet, and the marked cells are both trails |
| PipeMaze.ApartShift | aoc-10/src/main.rs:24-33 | being apart now and apart for `n` rounds after one step means apart for `n + 1` rounds |
| PipeMaze.FindStart | aoc-10/src/main.rs:58-63 | the first 'S' in row-major order; nothing exactly when there is none |
| PipeMaze.Cell | aoc-10/src/main.rs:43-60 | row-major index `j` is the tile `(j / 140, j % 140)` |
| PipeMaze.Connected | aoc-10/src/main.rs:75-80 | the neighbours kept are exactly those whose pipe leads back to the start |
| PipeMaze.StartPair | aoc-10/src/main.rs:72-85 | two walkers from the first 'S' in row-major order onto the two different neighbours whose pipes lead back to it; nothing exactly when there is no 'S' or the number of such neighbours is not two (the `try_into().unwrap()` panic) |
| PipeMaze.ConnectedQualifying | aoc-10/src/main.rs:75-83 | the collected neighbours are the qualifying ones, each once, so their count is the number of qualifying neighbours |
| PipeMaze.PairMembers | aoc-10/src/main.rs:83-84 | a two-element list holds exactly its two elements |
| PipeMaze.StartPicks | aoc-10/src/main.rs:75-85 | the two kept neighbours are different and each leads back to the start |
| PipeMaze.StartDistinct | aoc-10/src/main.rs:75-85 | two kept neighbours are different tiles |
| PipeMaze.ConnectedDistinct | aoc-10/src/main.rs:75-82 | filtering distinct neighbours keeps them distinct |
| PipeMaze.EscapesStep | aoc-10/src/main.rs:159-160 | a free cell next to an escaping cell escapes |
| PipeMaze.SealAdd | aoc-10/src/main.rs:157-160 | a free inner cell whose neighbours were all explored without escape is sealed off |
| PipeMaze.Explore | aoc-10/src/main.rs:140-161 | true only for a cell from which a route of free cells leads to the border; false only when every newly visited cell is sealed off from the border |
| PipeMaze.TryFrom | aoc-10/src/main.rs:159-160 | the `any` over the neighbours: true only if some remaining neighbour escapes; false only when each is visited or on the loop and the new cells are sealed |
| PipeMaze.OutsideIff | aoc-10/src/main.rs:136-138 | a cell is outside exactly when a route of free cells leads from it to the border |
| PipeMaze.SealedRoute | aoc-10/src/main.rs:140-161 | a route starting in a sealed set never leaves it, so never reaches the border |
| PipeMaze.ParseInput | aoc-10/src/main.rs:50-53 | the field is the first 140 lines; nothing exactly when a line is missing or not exactly 140 bytes |
| PipeMaze.PartOne | aoc-10/src/main.rs:17-40 | the step count is one more than the rounds after which the walkers first meet, and the marked set holds the doubled start and both trails; nothing exactly when there is no start pair or the walkers do not first meet within the fuel |
| PipeMaze.Candidate | aoc-10/src/main.rs:43-44 | the doubled cell of tile `j`, which has two even components |
| PipeMaze.EnclosedStep | aoc-10/src/main.rs:43-47 | the enclosed candidates below `n` are those below `n - 1` plus candidate `n - 1` when enclosed |
| PipeMaze.CountInside | aoc-10/src/main.rs:43-47 | the count is the number of enclosed candidates among the first `n` |
| PipeMaze.PartTwo | aoc-10/src/main.rs:42-48 | the number of tiles whose doubled cell is neither on the loop nor outside, at most 140 * 140 |
| PipeMaze.Solve | aoc-10/src/main.rs:3-15 | nothing exactly when the field does not parse or part one fails; otherwise the first answer is part one's step count and the second is part two over part one's loop cells |
| CosmicExpansion.AbsDiff | aoc-11/src/main.rs:74 | `abs_diff` is the gap between the two: added to the smaller it gives the larger |
| CosmicExpansion.DistanceMetric | aoc-11/src/main.rs:73-75 | the Manhattan distance is symmetric and 0 exactly between equal coordinates |
| CosmicExpansion.RowGalaxies | aoc-11/src/main.rs:50-54 | the galaxies of one line are exactly its '#' bytes, left to right |
| CosmicExpansion.Galaxies | aoc-11/src/main.rs:46-56 | the galaxies are exactly the '#' cells of the image, in reading order |
| CosmicExpansion.Empty | aoc-11/src/main.rs:58-64 | the indices below the limit that no galaxy's row (or column) equals, increasing |
| CosmicExpansion.ParseInput | aoc-11/src/main.rs:45-71 | the galaxies are exactly the '#' bytes of the lines, in reading order; the empty rows and columns are exactly the indices in `0..140` that no galaxy uses |
| CosmicExpansion.Extra | aoc-11/src/main.rs:23-31 | the count of empty indices in a range is at most its length |
| CosmicExpansion.Expanded | aoc-11/src/main.rs:23-33 | a pair's expanded distance is at least the plain distance, and equal to it at multiplier 1 |
| CosmicExpansion.ExpandedProperties | aoc-11/src/main.rs:21-34 | a pair's expanded distance is symmetric, 0 for a galaxy with itself, the plain distance at multiplier 1, and grows with the multiplier |
| CosmicExpansion.ExtraSplit | aoc-11/src/main.rs:23-31 | counting `lo..hi` is counting `0..hi` less `0..lo` |
| CosmicExpansion.StretchSpan | aoc-11/src/main.rs:23-33 | the span between two coordinates once every empty index is `multiplier` wide is the span plus the counted empty indices times `multiplier - 1` |
| CosmicExpansion.ExpandedIsStretchedDistance | aoc-11/src/main.rs:33 | the expanded distance is the Manhattan distance between the galaxies' positions in the expanded universe |
| CosmicExpansion.DistancesStrict | aoc-11/src/main.rs:16-37 | including each galaxy paired with itself adds nothing, so the sum is over pairs of distinct list positions |
| CosmicExpansion.DistancesMonotone | aoc-11/src/main.rs:16-37 | a larger multiplier never gives a smaller sum |
| CosmicExpansion.RowSumMonotone | aoc-11/src/main.rs:22-34 | one galaxy's row of the sum never shrinks with a larger multiplier |
| CosmicExpansion.RowSumAppend | aoc-11/src/main.rs:22-34 | one more galaxy in the inner iteration adds exactly its expanded distance |
| CosmicExpansion.RowSumSwap | aoc-11/src/main.rs:22-34 | a galaxy's distances to a list are its list's distances to it |
| CosmicExpansion.StrictAppend | aoc-11/src/main.rs:16-37 | one more galaxy at the end adds its distances to all the galaxies before it |
| CosmicExpansion.StrictIsPairs | aoc-11/src/main.rs:16-37 | summing by first galaxy and summing by last galaxy of each pair agree |
| CosmicExpansion.DistancesArePairs | aoc-11/src/main.rs:16-37 | `distances` is the sum of the expanded distances over all unordered pairs of list positions, each pair once |
| CosmicExpansion.PartOne | aoc-11/src/main.rs:9 | the sum over pairs of galaxies at multiplier 2 |
| CosmicExpansion.PartTwo | aoc-11/src/main.rs:12 | the sum over pairs of galaxies at multiplier 1000000, never less than part one |
| PointOfIncidence.Line | aoc-13/src/main.rs:110-117 | a column is as long as there are rows and a row is `column_len` cells long |
| PointOfIncidence.LineCells | aoc-13/src/main.rs:110-117 | `col(j)` holds cell `j` of every row, `row(i)` holds the `i`-th run of `column_len` cells, and neither reads outside the data |
| PointOfIncidence.ScanCorrect | aoc-13/src/main.rs:38-50 | the outward `while` loop from a pair of lines succeeds exactly when every pair from that offset outwards agrees up to the nearer edge |
| PointOfIncidence.ScanIsReflection | aoc-13/src/main.rs:35-53 | the filter accepts line `i` exactly when `i` is a line of reflection |
| PointOfIncidence.Candidates | aoc-13/src/main.rs:35-53 | the values in `1..count` that pass the filter, ascending, are exactly the lines of reflection |
| PointOfIncidence.FirstIsLeast | aoc-13/src/main.rs:18-20 | `.next()` is a line of reflection and no smaller line is one, or there is none |
| PointOfIncidence.Flip | aoc-13/src/main.rs:59-60 | the copy differs from the pattern in exactly the flipped cell |
| PointOfIncidence.FirstOther | aoc-13/src/main.rs:64 | `find` returns a candidate that differs from the original line and every candidate before it is the original line; none exactly when every candidate is the original line |
| PointOfIncidence.FirstOtherFrom | aoc-13/src/main.rs:64 | the same search from a given position of the candidate list |
| PointOfIncidence.FirstOtherIsLeast | aoc-13/src/main.rs:62-64 | over a pattern's ascending lines of reflection, `find` yields the least line of reflection other than the original, or none when there is no such line |
| PointOfIncidence.AltFrom | aoc-13/src/main.rs:58-65 | `find_map` from cell `i`: the result is the least other line of the first flip, at or after `i`, that has one, and every flip before it has none; none exactly when no flip from `i` has one |
| PointOfIncidence.Alt | aoc-13/src/main.rs:55-66 | the result is the least line of reflection, other than the unflipped pattern's first, of the first single-cell flip that has such a line; none exactly when no flip has one |
| PointOfIncidence.ValueOne | aoc-13/src/main.rs:17-21 | the columns left of the first vertical line, else 100 times the rows above the first horizontal line; no value exactly when the pattern is empty or has neither line (the `unwrap` panics) |
| PointOfIncidence.ValueTwo | aoc-13/src/main.rs:28-31 | the same summary over the smudge-corrected lines; no value exactly when the pattern is empty or neither axis has a corrected line |
| PointOfIncidence.PartOne | aoc-13/src/main.rs:14-23 | defined exactly when every pattern has a summary, and then the sum of the summaries |
| PointOfIncidence.PartTwo | aoc-13/src/main.rs:25-33 | defined exactly when every pattern has a corrected summary, and then the sum of those |
| PointOfIncidence.Cells | aoc-13/src/main.rs:126 | a cell is a rock exactly when its byte is '#' |
| PointOfIncidence.FlattenSplit | aoc-13/src/main.rs:120-141 | the cells of a list of lines are the cells of its two halves, in order |
| PointOfIncidence.Block | aoc-13/src/main.rs:129-135 | the inner loop appends the cells of exactly the lines it passes over, none of which is empty, and stops after the first empty line or at the end |
| PointOfIncidence.BlockRectangular | aoc-13/src/main.rs:125-137 | a block of `n` lines of width `w` yields `n * w` cells, a rectangle `column_len` wide |
| PointOfIncidence.ParseFrom | aoc-13/src/main.rs:120-141 | every line not swallowed by a block starts a pattern whose width is that line's length; never more patterns than lines; the patterns' cells are the lines' cells, none lost, added or reordered |
| PointOfIncidence.ParseInput | aoc-13/src/main.rs:120-141 | the patterns' cells, one pattern after another, are the cells of the input's lines in order; pattern `k` has the width of the line where it starts and the cells of that line's block (`PatternAt`), and the patterns end exactly where the lines do |
| PointOfIncidence.Start | aoc-13/src/main.rs:120-141 | the line where pattern `k` begins lies between the starting position and the end of the input |
| PointOfIncidence.ParseFromBlocks | aoc-13/src/main.rs:120-141 | each pattern read is the first line not yet consumed, with its width, together with the block `Block` reads after it, and reading stops exactly when the lines run out |
| ParabolicDish.StepKey | aoc-14/src/main.rs:63-66 | one step of a rock goes one key nearer the edge it rolls to, along a line of fixed cross coordinate |
| ParabolicDish.SortRocks | aoc-14/src/main.rs:60 | the sorted slice is a permutation of the rocks, nearest the edge first |
| ParabolicDish.SortedUnique | aoc-14/src/main.rs:60 | the model orders rocks by `Before`: key towards the edge first, ties broken by the cross coordinate; that order is total on cells, so two sorted arrangements of the same rocks are the same sequence |
| ParabolicDish.Slide | aoc-14/src/main.rs:63-67 | the rock's cell is cleared and its final cell set, it moves only into free cells along its line, and it stops stuck at the edge or against an occupied cell |
| ParabolicDish.RollSeqSpec | aoc-14/src/main.rs:62-68 | after the `for` loop each rock has vacated only its own cell, the rocks stay distinct, and every one is stuck |
| ParabolicDish.RollWf | aoc-14/src/main.rs:59-68 | sliding the rocks of a well-formed platform in a sorted order keeps it well formed and its cube rocks in place, and leaves every rock stuck |
| ParabolicDish.SlideBehind | aoc-14/src/main.rs:63-67 | a sliding rock leaves every other occupied cell occupied and never passes one that lies ahead of it on its line |
| ParabolicDish.RollSeqBehind | aoc-14/src/main.rs:62-68 | a cell the loop does not move, keyed no further than the rocks still to move, keeps every rock of its line behind it |
| ParabolicDish.RollSeq | aoc-14/src/main.rs:62-68 | the `for` loop hands back one final position per rock it is given, and rocks that start inside the square stay inside |
| ParabolicDish.RollSeqNoPass | aoc-14/src/main.rs:62-68 | an occupied cell the loop never moves stays strictly ahead of every rock that started behind it on its line |
| ParabolicDish.RollSeqAlong | aoc-14/src/main.rs:63-67 | the loop moves every rock along its own line, never away from the edge |
| ParabolicDish.RollSeqLines | aoc-14/src/main.rs:62-68 | the `for` loop moves the `i`-th rock along its own line, no further from the edge, and no rock overtakes another of its line |
| ParabolicDish.Roll | aoc-14/src/main.rs:59-105 | a roll in any direction keeps the number of rocks, the cube rocks and well-formedness; the `i`-th rock of the sorted slice ends on its own line, no further from the edge, stuck; rocks of one line keep their order; no rock passes a cube rock that lies ahead of it on its line |
| ParabolicDish.RollNoPass | aoc-14/src/main.rs:62-68 | after sorting and sliding, every rock stays behind each cube rock that was ahead of it on its line |
| ParabolicDish.CellCount | aoc-14/src/main.rs:118-139 | the occupied cells of a well-formed platform are the cube rocks plus one cell per round rock |
| ParabolicDish.RollKeepsCells | aoc-14/src/main.rs:62-68 | a roll keeps the number of occupied cells |
| ParabolicDish.RollTwice | aoc-14/src/main.rs:59-105 | rolling the same way again changes no cell |
| ParabolicDish.RollRespectsGrid | aoc-14/src/main.rs:59-105 | platforms with the same occupied cells and cube rocks roll to the same platform, whatever the order of their rock slices |
| ParabolicDish.LoadPermutation | aoc-14/src/main.rs:114-116 | the total load does not depend on the order of the rocks |
| ParabolicDish.LoadRespectsGrid | aoc-14/src/main.rs:114-116 | the load depends only on which cells hold round rocks, which is what `grid_tortoise != grid_hare` compares |
| ParabolicDish.LoadBounds | aoc-14/src/main.rs:114-116 | every rock inside the square adds between 1 and 100 |
| ParabolicDish.Cycle | aoc-14/src/main.rs:107-112 | a cycle keeps the number of rocks, the cube rocks and well-formedness |
| ParabolicDish.CycleRespects | aoc-14/src/main.rs:107-112 | the occupied cells after a cycle depend only on the occupied cells before it |
| ParabolicDish.PartTwoMissing | aoc-14/src/main.rs:39-48 | the tortoise-and-hare search finds nothing only when no `i` up to a billion has the platforms after `i` and `2 i` cycles occupying the same cells |
| ParabolicDish.SearchFinds | aoc-14/src/main.rs:34-48 | the search stops at the least such `i` |
| ParabolicDish.StartingPoints | aoc-14/src/main.rs:34-37 | the tortoise starts one cycle in and the hare two |
| ParabolicDish.SkipToEnd | aoc-14/src/main.rs:50-56 | for a step that keeps the cube rocks and whose next occupied cells depend only on the current ones, once the cells after `i` and `2 i` steps agree, running `1000000000 - 1000000000 / i * i` more steps from step `i` reaches the load of the billionth step |
| ParabolicDish.PartTwoIsTotalLoad | aoc-14/src/main.rs:25-57 | for such a step, the answer of the tortoise-and-hare search is the load after a billion steps |
| ParabolicDish.PartTwo | aoc-14/src/main.rs:25-57 | the answer of `part_two` is the load after a billion spin cycles, and there is none only when no `i` up to a billion has the cells after `i` and `2 i` cycles agree |
| ParabolicDish.RowRocks | aoc-14/src/main.rs:129-135 | the rocks of one line are exactly its 'O' bytes, left to right |
| ParabolicDish.Rocks | aoc-14/src/main.rs:126-136 | the rock list holds exactly the 'O' cells of the input, without repetition |
| ParabolicDish.Occupancy | aoc-14/src/main.rs:121-124 | the grid holds exactly the cells of the square that are not '.' |
| ParabolicDish.ParseLines | aoc-14/src/main.rs:118-139 | a platform exactly when the first 100 lines each have 100 bytes and no rock lies outside them; its rocks and occupied cells are those of the input |
| ParabolicDish.RocksInsideIff | aoc-14/src/main.rs:126-136 | for a list holding exactly the 'O' cells of the input, every rock is inside the square exactly when every entry of the list is |
| ParabolicDish.PartOne | aoc-14/src/main.rs:20-23 | a load exactly when the input parses: the total load of the platform rolled north, between the number of rocks and 100 times it |
| LensLibrary.HashStep | aoc-15/src/main.rs:63 | one step of the fold is always a byte value |
| LensLibrary.Hash | aoc-15/src/main.rs:59-64 | the hash is always a box index below 256, and 0 for the empty string |
| LensLibrary.HashAppend | aoc-15/src/main.rs:59-64 | hashing a concatenation continues the fold from the hash of the first part |
| LensLibrary.HashStepSingleWrap | aoc-15/src/main.rs:63 | the two wrapping operations of a step make one: `(acc + byte) * 17 mod 256` |
| LensLibrary.ParseStep | aoc-15/src/main.rs:26-33 | a step containing '-' removes the label before its last character; any other step inserts the label before its last two characters with the last digit as focal length, and fails exactly when it is shorter than two or that last character is not a digit |
| LensLibrary.RemoveLabel | aoc-15/src/main.rs:29 | `retain` keeps exactly the lenses of other labels |
| LensLibrary.RemoveGone | aoc-15/src/main.rs:29 | afterwards no lens has the label, and without one nothing changes |
| LensLibrary.RemoveAppend | aoc-15/src/main.rs:29 | `retain` keeps the order of the lenses it keeps |
| LensLibrary.FindLabel | aoc-15/src/main.rs:35-37 | the search finds nothing exactly when no lens has the label, and otherwise the first one that does |
| LensLibrary.SetFocal | aoc-15/src/main.rs:35-45 | with the label present only that lens's focal length changes, where it stands; without it the new lens goes at the back |
| LensLibrary.Apply | aoc-15/src/main.rs:26-46 | a step changes only the box of its label's hash |
| LensLibrary.ApplyWf | aoc-15/src/main.rs:26-46 | a step keeps every lens in the box of its hash and the labels of each box unique |
| LensLibrary.ApplyLookup | aoc-15/src/main.rs:26-46 | the boxes act as a map: "label=f" binds the label to `f`, "label-" unbinds it, and no other label's focal length changes |
| LensLibrary.PushPower | aoc-15/src/main.rs:66-79 | a lens pushed at the back of box `b` adds `(b + 1)` times its slot number times its focal length |
| LensLibrary.PowerReplace | aoc-15/src/main.rs:66-79 | replacing one box changes the total by the difference of that box's power |
| LensLibrary.InsertNewPower | aoc-15/src/main.rs:41-44 | inserting a new label raises the focusing power by `(hash + 1) * slot * focal` for the slot it lands in |
| LensLibrary.RemoveAbsent | aoc-15/src/main.rs:29 | removing a label that no box holds changes nothing |
| LensLibrary.Steps | aoc-15/src/main.rs:14-16 | one step per comma-separated piece: the piece with only whitespace cut from its ends, holding no comma, and (when not empty) starting and ending with a non-whitespace character, so all the whitespace at either end is gone |
| LensLibrary.TrimKeepsOut | aoc-15/src/main.rs:16 | trimming a piece keeps it a slice of the piece, so a character the piece lacks the step lacks too |
| LensLibrary.SumOfHashes | aoc-15/src/main.rs:13-20 | the `sum` of the mapped hashes is the hashes of the steps added one after another |
| LensLibrary.PartOne | aoc-15/src/main.rs:13-20 | the hashes of the steps added one after another, below 256 times the number of steps |
| LensLibrary.Run | aoc-15/src/main.rs:25-47 | the loop fails exactly when some step fails to parse, and otherwise keeps the boxes well formed |
| LensLibrary.RunAppend | aoc-15/src/main.rs:25-47 | running two lists of steps one after the other is running their concatenation |
| LensLibrary.EmptyBoxes | aoc-15/src/main.rs:23 | the 256 empty boxes are well formed and have focusing power 0 |
| LensLibrary.PartTwo | aoc-15/src/main.rs:22-50 | no answer exactly when some step fails to parse, and otherwise the focusing power of the boxes the loop leaves, starting from 256 empty boxes |
| FloorLava.BitsDistinct | aoc-16/src/main.rs:91-98 | every direction tag is a single bit and different directions have disjoint bits |
| FloorLava.MaskBits | aoc-16/src/main.rs:192 | `visited_bitmask & dir > 0` holds exactly when a beam has crossed the tile in that direction, and a mask is non-zero exactly when some beam has crossed the tile |
| FloorLava.MaskAdd | aoc-16/src/main.rs:197 | setting a beam's bit records just that beam |
| FloorLava.Next | aoc-16/src/main.rs:124-163 | one tile on in the beam's direction, keeping the direction, and nothing exactly when that leaves the 110 by 110 grid |
| FloorLava.MirrorInvolution | aoc-16/src/main.rs:165-180 | bouncing twice off the same mirror restores the direction |
| FloorLava.Reflect | aoc-16/src/main.rs:165-186 | a mirror keeps the tile and turns the beam between vertical and horizontal |
| FloorLava.Outgoing | aoc-16/src/main.rs:199-234 | a splitter hit side-on sends two beams across the original one, along the splitter's own axis: left and right for '-', up and down for '|'; a mirror sends exactly the reflected beam; any other tile passes the beam on unchanged |
| FloorLava.ReachesStep | aoc-16/src/main.rs:199-234 | a beam reaches whatever the beams leaving its tile reach |
| FloorLava.ClosedHoldsPath | aoc-16/src/main.rs:189-235 | a set of beams closed under stepping holds everything reachable from its members |
| FloorLava.UnvisitedShrinks | aoc-16/src/main.rs:192-197 | each new beam sets a bit that was clear, so the recursion ends |
| FloorLava.Propagate | aoc-16/src/main.rs:189-235 | `propogate` keeps the beams seen before and adds the new beam; every beam it adds is reachable from it, and the beams leaving any added beam's tile are added too |
| FloorLava.FollowEach | aoc-16/src/main.rs:206-227 | the beams leaving a tile are followed one after another, each on the tiles the earlier ones marked, and each has either left the grid or been recorded |
| FloorLava.LandsSucc | aoc-16/src/main.rs:199-234 | once every beam leaving a tile has been recorded or has left the grid, every successor of that tile is recorded |
| FloorLava.Energized | aoc-16/src/main.rs:45 | starting from an untouched grid, the beams recorded are exactly those reachable from the start |
| FloorLava.TilesMask | aoc-16/src/main.rs:47-50 | a tile is counted exactly when its bitmask is non-zero |
| FloorLava.TilesLit | aoc-16/src/main.rs:45-50 | the tiles the energised beams cross are exactly the tiles some beam from the start reaches, in any direction |
| FloorLava.EnergizedCount | aoc-16/src/main.rs:45-50 | the count is the number of tiles some beam from the start reaches, at least the start tile and at most all 110 × 110 |
| FloorLava.ParseInput | aoc-16/src/main.rs:14-37 | a grid exactly when the first 110 lines each have at least 110 bytes; each tile is the type of its byte |
| FloorLava.TileGrid | aoc-16/src/main.rs:17-35 | the tiles are the types of the top-left 110 × 110 bytes |
| FloorLava.PartOne | aoc-16/src/main.rs:39-51 | an answer exactly when the input parses: the number of tiles a beam entering the top-left tile heading right reaches, between 1 and 110 × 110 |
| FloorLava.Entries | aoc-16/src/main.rs:54-76 | 440 entry beams, all on the grid |
| FloorLava.EntriesOnEdge | aoc-16/src/main.rs:54-72 | every entry starts on an edge tile, heading into the grid |
| FloorLava.Best | aoc-16/src/main.rs:87-88 | the largest count over the entries, attained by one of them |
| FloorLava.Counts | aoc-16/src/main.rs:77-86 | each entry's count is its energised count on a fresh copy of the grid |
| FloorLava.PartTwo | aoc-16/src/main.rs:53-89 | an answer exactly when the input parses, and it is the largest energised count over the 440 entries |
| ClumsyCrucible.ParseRow | aoc-17/src/main.rs:122 | each weight is its byte minus '0' |
| ClumsyCrucible.ParseGrid | aoc-17/src/main.rs:117-125 | a grid exactly when enough lines with enough bytes, none below '0', are present; every weight is its byte minus '0' |
| ClumsyCrucible.StartNodes | aoc-17/src/main.rs:50-59 | four seeds on the start cell, one per heading in `DIRS` order, with run length 1 and no heat loss |
| ClumsyCrucible.Next | aoc-17/src/main.rs:61-94 | no reversing; a turn only when the run length lies in the turn range and it resets the run to 1; going straight adds 1; runs never exceed the range's end; the cell entered is on the grid and its weight is added; and a refusal has one of these reasons |
| ClumsyCrucible.NextMoves | aoc-17/src/main.rs:80-84 | every successor is on another cell |
| ClumsyCrucible.NextShift | aoc-17/src/main.rs:61-94 | the heat loss so far only shifts the successor's heat loss and never changes whether there is one |
| ClumsyCrucible.HeapTopIsLeastDist | aoc-17/src/main.rs:111-115 | with the reversed order, a node the max-heap may pop is one of least heat loss |
| ClumsyCrucible.EqualityIgnoresDist | aoc-17/src/main.rs:97-115 | node equality ignores heat loss while node order looks only at heat loss |
| ClumsyCrucible.HeapTopAdd | aoc-17/src/main.rs:156 | after a push the top is the old top or the newcomer |
| ClumsyCrucible.WalkExtend | aoc-17/src/main.rs:61-94 | extending a legal walk by a legal step adds the weight of the cell entered |
| ClumsyCrucible.ReachesStep | aoc-17/src/main.rs:147-150 | a successor of a reachable state is reachable at the successor's heat loss |
| ClumsyCrucible.NextIsStep | aoc-17/src/main.rs:61-94 | every move `Node::next` makes is a legal step that adds the weight of the cell entered |
| ClumsyCrucible.Expand | aoc-17/src/main.rs:147-158 | the successor loop keeps the search invariant, only lowers scores, pushes nothing when no score changes, and pushes only strict improvements recorded at their new score |
| ClumsyCrucible.MeasureDecreases | aoc-17/src/main.rs:142-159 | every change of the score table adds a state or lowers a score, so the search terminates |
| ClumsyCrucible.PopStep | aoc-17/src/main.rs:142-145 | popping a top node keeps the invariant; a goal node is dropped without expansion |
| ClumsyCrucible.GoalScan | aoc-17/src/main.rs:163-175 | the least score over the goal states with any heading and a run length in `1..=hi`, and nothing exactly when none is recorded (the `unwrap` panics) |
| ClumsyCrucible.StepBound | aoc-17/src/main.rs:142-159 | at the end every legal step out of a recorded state off the goal leads to a recorded state, no worse than through that step |
| ClumsyCrucible.Conclude | aoc-17/src/main.rs:161-175 | from the final invariant, the scan's answer is the heat loss of some legal walk to the goal and at most that of every such walk |
| ClumsyCrucible.FindPath | aoc-17/src/main.rs:135-176 | the result is the least heat loss over legal walks that end on the goal cell with a run length in `1..=hi`, and it exists whenever such a walk exists |
| ClumsyCrucible.PartOne | aoc-17/src/main.rs:127-129 | the least heat loss with runs of 1 to 3 and turns allowed at any run length |
| ClumsyCrucible.PartTwo | aoc-17/src/main.rs:131-133 | the least heat loss with runs of at most 10 and turns only after 4 to 10 steps |
| Aplenty.With | aoc-19/src/main.rs:195-199 | writing one category's interval leaves the other three as they were |
| Aplenty.MapDst | aoc-19/src/main.rs:120-126 | "A" accepts, "R" rejects, and any other label names a workflow |
| Aplenty.ParseCategory | aoc-19/src/main.rs:78-84 | exactly the letters x, m, a and s name the four categories; anything else is the `unreachable!()` panic |
| Aplenty.ParseRule | aoc-19/src/main.rs:67-99 | a piece without ':' is an unconditional rule to its destination; otherwise the destination follows ':' and the test is `Less` exactly when it contains '<' |
| Aplenty.ParseRuleTest | aoc-19/src/main.rs:67-93 | a piece with ':' is a rule exactly when the test before the ':' splits at its first '<' or '>' into a category letter and a number; those are the rule's category and threshold, and any other piece with ':' is one of the program's `unwrap` or `unreachable!()` panics |
| Aplenty.ParseWorkflow | aoc-19/src/main.rs:62-103 | a workflow exactly when every non-empty piece after the first is a rule; the name is the first piece and the rules are those pieces parsed, in order |
| Aplenty.ParseWorkflows | aoc-19/src/main.rs:55-104 | the loop succeeds exactly when an empty line follows and every line before it is a workflow; it then stops just past that first empty line |
| Aplenty.FirstEmpty | aoc-19/src/main.rs:55-60 | the first empty line from the start on: every earlier line is non-empty, and none means no line is empty (the `unwrap` on the exhausted line iterator) |
| Aplenty.Parsed | aoc-19/src/main.rs:55-104 | the workflows of the lines before the empty line, one per line, in order |
| Aplenty.ParsedFirst | aoc-19/src/main.rs:55-104 | the workflows of a run of lines are the first line's workflow followed by those of the rest |
| Aplenty.InsertAllKeys | aoc-19/src/main.rs:103 | after inserting the workflows one by one, the map holds exactly the names it held before and the names of the workflows |
| Aplenty.InsertAllLast | aoc-19/src/main.rs:103 | a name that several lines use takes the rules of the last of them, as `HashMap::insert` overwrites |
| Aplenty.InsertAllKeeps | aoc-19/src/main.rs:103 | a name no line uses keeps the rules it had |
| Aplenty.ParseWorkflowsInserts | aoc-19/src/main.rs:55-104 | the map the loop builds is the starting map with the workflows of the lines before the empty line inserted in order |
| Aplenty.ParsePart | aoc-19/src/main.rs:106-114 | a part exactly when the pieces at 1, 3, 5 and 7 are numbers, which are its four ratings |
| Aplenty.ParseInput | aoc-19/src/main.rs:50-118 | the workflows up to the empty line, then one part for each remaining line, failing exactly when one of them fails |
| Aplenty.FirstFiring | aoc-19/src/main.rs:141-149 | the first rule whose test holds, or that has no test, and nothing only when no rule fires |
| Aplenty.DecideFirstFiring | aoc-19/src/main.rs:140-152 | the walk follows the first rule that fires and ignores every later one; when none fires it is the `unreachable!()` panic |
| Aplenty.Accepted | aoc-19/src/main.rs:136-138 | without a workflow called "in" there is no verdict: `workflows["in"]` panics |
| Aplenty.AcceptedPartsSnoc | aoc-19/src/main.rs:130-131 | filtering a list with one more part at the back filters the front, then keeps that part exactly when it is accepted |
| Aplenty.AcceptedSumSnoc | aoc-19/src/main.rs:130-133 | one more part at the back adds its four ratings to the accepted total exactly when it is accepted |
| Aplenty.PartOne | aoc-19/src/main.rs:128-134 | an answer exactly when every part's walk ends: the sum of the four ratings over the accepted parts, in order; at most the total of all ratings, all of it when every part is accepted and 0 when none is |
| Aplenty.InBoxGet | aoc-19/src/main.rs:48 | a part lies in a box exactly when each rating lies in its category's interval |
| Aplenty.EmptyBoxHasNoPart | aoc-19/src/main.rs:48 | no part lies in an empty box, and a non-empty box of ratings holds its lowest corner |
| Aplenty.VolumeZero | aoc-19/src/main.rs:174-179 | a box's volume is 0 exactly when one of its intervals is empty |
| Aplenty.SplitAsWritten | aoc-19/src/main.rs:192-200 | the branch and the remainder get `val - 1`, `val` or `val + 1` as bounds in place of the old ones, not intersected with them |
| Aplenty.CalcAsWritten | aoc-19/src/main.rs:184-208 | the walk as written visits every rule of the list, so it collects at least one box per rule that accepts outright, empty boxes included |
| Aplenty.BranchAsWritten | aoc-19/src/main.rs:214-229 | as written, accept collects the box as it is (even an empty one), reject collects nothing, and a missing workflow is the `workflows[dst]` panic |
| Aplenty.SplitAsWrittenOverreaches | aoc-19/src/main.rs:184-229 | on `in{x>2000:R,x<3000:A,R}` the accepted box is `x in 1..=2999`, which holds the part x=2500 that `accepted` rejects |
| Aplenty.Split | aoc-19/src/main.rs:192-200 | the two pieces lie within the box, are apart, and leave the other categories alone |
| Aplenty.SplitSeparates | aoc-19/src/main.rs:192-200 | a part of the box lands in the branch exactly when it passes the test, and in the remainder exactly when it fails it |
| Aplenty.SplitVolume | aoc-19/src/main.rs:192-200 | the two pieces together hold as many rating combinations as the box |
| Aplenty.Ranges | aoc-19/src/main.rs:184-229 | the corrected walk collects nothing from an empty box and never collects an empty piece |
| Aplenty.Branch | aoc-19/src/main.rs:214-229 | the same for one destination |
| Aplenty.RangesShape | aoc-19/src/main.rs:184-229 | the accepted pieces are non-empty, lie in the box they came from and are pairwise apart |
| Aplenty.RangesAccepted | aoc-19/src/main.rs:184-229 | the accepted pieces hold exactly the parts of the box that the rule walk of part one accepts |
| Aplenty.BranchAccepted | aoc-19/src/main.rs:214-229 | the same for one destination: accept takes the whole box, reject nothing, a workflow name its accepted pieces |
| Aplenty.RangesVolume | aoc-19/src/main.rs:184-229 | the accepted pieces hold no more combinations than the box they came from |
| Aplenty.PartTwo | aoc-19/src/main.rs:162-182 | an answer exactly when "in" exists and the splitting ends; it is the sum of the volumes of the accepted pieces of the full box, at most 4000 to the fourth power |
| Aplenty.PartTwoDistinct | aoc-19/src/main.rs:163-173 | the accepted pieces are pairwise different, so collecting them in a `HashSet` drops none |
| Aplenty.PartTwoMatchesPartOne | aoc-19/src/main.rs:136-138 | a part with ratings in `1..=4000` is accepted exactly when it lies in one of the pieces part two adds up |
| SandSlabs.Lowered | aoc-22/src/main.rs:26-34 | nothing exactly when the brick rests on level 1; otherwise the same extent one level lower |
| SandSlabs.LoweredShifts | aoc-22/src/main.rs:26-34 | the lowered brick fills a cell exactly when the brick fills the cell above it |
| SandSlabs.CollidesIffShared | aoc-22/src/main.rs:36-43 | two well-formed bricks collide exactly when some unit cell lies in both |
| SandSlabs.CollidesSymmetric | aoc-22/src/main.rs:36-43 | collision does not depend on which brick is asked |
| SandSlabs.ParseVec | aoc-22/src/main.rs:52-53 | the first three comma-separated pieces, each a number |
| SandSlabs.ParseBrick | aoc-22/src/main.rs:50-61 | a brick exactly when the line splits at '~' into two corners with the end at or beyond the start (otherwise `end - pos` underflows); it starts at the first corner and fills exactly the cells between the two, inclusive |
| SandSlabs.ParseInput | aoc-22/src/main.rs:46-64 | one well-formed brick per line, failing exactly when some line fails |
| SandSlabs.Drop | aoc-22/src/main.rs:119-128 | the lowered brick, exactly when it exists and collides with no other brick |
| SandSlabs.MoveKeepsApart | aoc-22/src/main.rs:123-130 | moving a brick to a place free of every other brick keeps the bricks apart |
| SandSlabs.PassShape | aoc-22/src/main.rs:118-133 | a pass only moves bricks straight down, keeps them on or above level 1, and leaves the bricks before its start alone |
| SandSlabs.PassRecords | aoc-22/src/main.rs:118-133 | `moved_ids` gains exactly the lowered indices, `moved` is raised exactly when something changed, and a pass that changes nothing found no brick that could be lowered |
| SandSlabs.PassMoved | aoc-22/src/main.rs:118-133 | `moved_ids` gains exactly the indices whose brick the pass lowered |
| SandSlabs.PassChanged | aoc-22/src/main.rs:118-133 | the `moved` flag is raised exactly when the pass changed a brick, and a pass that changed nothing found no brick it could lower |
| SandSlabs.PassApart | aoc-22/src/main.rs:118-133 | a pass keeps non-overlapping bricks apart |
| SandSlabs.ChangeDescends | aoc-22/src/main.rs:117-140 | every pass that changes something lowers the total height, so the loop ends |
| SandSlabs.DropKeepsOrder | aoc-22/src/main.rs:119-128 | lowering a brick into a free place leaves it above every brick it started above over a common footprint |
| SandSlabs.PassOrder | aoc-22/src/main.rs:118-133 | a pass never lets one brick pass through another |
| SandSlabs.SettleLoop | aoc-22/src/main.rs:117-142 | the loop ends with the bricks at rest, moved only straight down, still apart when they started apart, no brick passed through another, and reports the number of distinct bricks that moved |
| SandSlabs.SettleAll | aoc-22/src/main.rs:113-143 | on bricks at level 1 or above, `settle` ends with the bricks at rest and still above ground, each moved only straight down, still apart when they started apart, in the same stacking order over a common footprint, and the count is the number of distinct bricks that moved |
| SandSlabs.Settle | aoc-22/src/main.rs:113-143 | a panic exactly when a brick lies below level 1; otherwise the bricks end at rest and moved only down, of two bricks over a common footprint the upper one stays above, and the count is the number of distinct bricks that moved |
| SandSlabs.SettleCountBound | aoc-22/src/main.rs:142 | at most every brick moves |
| SandSlabs.SettleNothingIffStable | aoc-22/src/main.rs:113-143 | `settle` reports no move exactly when the bricks were already at rest, and then leaves them as they were |
| SandSlabs.Remove | aoc-22/src/main.rs:104-105 | `Vec::remove` keeps the bricks before the index and shifts the later ones down by one |
| SandSlabs.FreeInRemoved | aoc-22/src/main.rs:83-87 | after removing brick `r`, a place is free of the others exactly when it is free of every brick other than `r` and the checked one |
| SandSlabs.SafeIffStable | aoc-22/src/main.rs:71-96 | part one's filter accepts brick `r` exactly when the bricks left after removing it are at rest |
| SandSlabs.SafeIffNoneFalls | aoc-22/src/main.rs:71-110 | part one's test and part two's count agree: a brick passes the filter exactly when settling the others after its removal moves nothing |
| SandSlabs.PartOne | aoc-22/src/main.rs:66-98 | an answer exactly when no brick lies below level 1; the settled bricks are at rest, moved only down and in their original stacking order, and the answer counts the bricks that pass the filter, at most all of them |
| SandSlabs.FallsWithout | aoc-22/src/main.rs:103-108 | the count for brick `r` is the number of the remaining bricks that settling leaves lower than they were, at most all the others |
| SandSlabs.FallsSum | aoc-22/src/main.rs:100-110 | the running total over the first `n` bricks is the sum of their fall counts |
| SandSlabs.PartTwo | aoc-22/src/main.rs:100-110 | the sum, over every brick, of how many other bricks fall once it is removed; at most `n * (n - 1)` for `n` bricks |
| SandSlabs.PartOneFromPartTwo | aoc-22/src/main.rs:66-110 | the bricks part one counts are exactly those for which part two counts no fall |
| SandSlabs.Solve | aoc-22/src/main.rs:7-16 | both answers exactly when the input parses and no brick lies below level 1 |
| Arith.GcdDivides | aoc-08/src/main.rs:3 | the gcd divides both arguments and every common divisor divides it |
| Arith.Bezout | aoc-08/src/main.rs:3 | the gcd is an integer combination of the arguments |
| Arith.LcmLeast | aoc-08/src/main.rs:27 | `lcm` is a common multiple of its arguments that divides every common multiple, and 0 exactly when an argument is 0 |
| Orbits.IterAdd | aoc-14/src/main.rs:34-54 | `m` steps followed by `n` more are `m + n` steps |
| Orbits.MeetFirst | aoc-14/src/main.rs:39-48 | the tortoise-and-hare loop finds the first `j` whose observations after `j` and `2 j` steps agree, within its bound |
| Orbits.MeetNone | aoc-14/src/main.rs:39-48 | the loop fails exactly when no observation within its bound agrees |
| Orbits.Period | aoc-14/src/main.rs:39-54 | once the observations after `i` and `2 i` steps agree, every later observation repeats `i` steps on |
| Orbits.Skip | aoc-14/src/main.rs:50-54 | after meeting at `i`, running `total - total / i * i` more steps gives the observation after `total` steps |
| Seqs.SortAsc | aoc-07/src/main.rs:93 | `sort_unstable` on integers gives an ascending permutation |
| Seqs.Min | aoc-05/src/main.rs:26 | `min` is nothing exactly on an empty sequence, and otherwise an element no larger than any other |
| Seqs.Max | aoc-16/src/main.rs:87-88 | `max` is nothing exactly on an empty sequence, and otherwise an element no smaller than any other |
| Seqs.SumOf | aoc-02/src/main.rs:22-28 | the sum of values that may each panic exists exactly when none panics, and is then the front-to-back total `Seqs.Total` |
| Seqs.MapAll | aoc-22/src/main.rs:47-63 | mapping a parser over every item succeeds exactly when it succeeds on every item, and keeps the results in order |
| Text.ParseNat | aoc-22/src/main.rs:53 | `parse` of an unsigned number succeeds exactly on an optional '+' followed by at least one decimal digit |
| Text.ParseRendering | aoc-22/src/main.rs:53 | parsing the decimal rendering of a number gives the number back |
| Text.ParseInt | aoc-09/src/main.rs:40 | `parse` of a signed number succeeds exactly on what `ParseNat` accepts or a '-' followed by at least one digit; the value is that of `ParseNat`, negated after a '-' |
| Text.ParseIntRendering | aoc-09/src/main.rs:40 | parsing the decimal rendering of an integer, with '-' in front of a negative one, gives the integer back |
| Text.JoinSplit | aoc-15/src/main.rs:15 | joining the pieces of `split` with the separator gives the input back |
| Text.Lines | aoc-22/src/main.rs:48 | `lines` gives no piece containing '\n', none for an empty input, the whole input when there is no '\n', and, for text without '\r', pieces that joined with '\n' give the text back up to a final '\n' |
| Text.SplitOnce | aoc-22/src/main.rs:50 | `split_once` fails exactly when no separator occurs, and otherwise gives the text before and after the first one |
| Text.Find | aoc-02/src/main.rs:47 | the index of the first occurrence, and nothing exactly when there is none |
| Text.Words | aoc-04/src/main.rs:46 | `split_whitespace` gives non-empty runs without whitespace that, written one after another, are exactly the non-space characters of the text in order |
| Text.WordsExactly | aoc-04/src/main.rs:46 | `split_whitespace` gives exactly the list of non-empty, space-free strings that lie in the text in order, separated by non-empty whitespace runs, with only whitespace before the first and after the last — both directions |
| Text.WordsLaidOut | aoc-04/src/main.rs:46 | the words `split_whitespace` finds lie in the text separated by non-empty whitespace runs, with only whitespace before the first and after the last |
| Text.LaidOutWords | aoc-04/src/main.rs:46 | conversely, space-free words laid out between whitespace runs are exactly what `split_whitespace` finds |
| Text.WordsCons | aoc-04/src/main.rs:46 | a leading whitespace character adds no word; a leading non-space starts a new word or extends the first one, according to whether a space follows it |
| Text.WordsJoin | aoc-04/src/main.rs:46 | `split_whitespace` gives back any non-empty, space-free words joined with single spaces |
| Text.Trim | aoc-15/src/main.rs:16 | `trim` gives the slice of the text with only whitespace before and after it, and no whitespace at either end of the slice |

## Left out

- I/O: every `main`, `fs::read_to_string` and `println!`, including the prints inside day 3's `part_one_and_two`. Each part takes the input text as a parameter.
- Machine-integer widths: every `u16`, `u32`, `u64` and `usize` is an unbounded integer. The sums of every day cannot overflow in the model. Day 5's `src + range`, day 19's `val - 1`, `val + 1` and `hi + 1 - lo`, and day 22's `u16` coordinates are not bounded either. The one width modelled is day 15's `wrapping_add`/`wrapping_mul` on `u8`, which the hash depends on.
- Day 5's threads: `thread::scope`, `spawn`, `available_parallelism` and `AtomicU64::fetch_min` are not modelled. The worker count is a parameter, and the workers' minima are combined in sequence. Any order gives the same minimum.
- Day 22's rayon `into_par_iter`: the per-brick filter and map are sequential comprehensions.
- Day 17's `came_from` map is written but never read, so it is left out. `num::Complex<i32>` is an integer pair. `BinaryHeap` is a multiset whose pop returns any node of least heat loss; the order among ties is not modelled. The grid side is a parameter, with 141 as the source's value.
- Hash containers: `HashMap` and `HashSet` are Dafny maps and sets, so iteration order is not modelled. Day 8 proves that the lcm does not depend on the order of the starting labels. Day 19 proves that the accepted boxes are distinct.
- Day 3's gear keys are raw pointers into the grid; the model keys gears by (row, column).
- Day 1's `char::is_numeric`, `to_digit` and `str::get` are modelled for ASCII text only. Unicode digits and char boundaries are not modelled.
- Text is a sequence of characters, not of UTF-8 bytes. Days 3, 10, 11, 13, 14, 16 and 17 index the bytes of each line. Day 4 slices each card at byte 9 (`line[9..]`), day 6 slices both lines at byte 10 (`[10..]`), day 8 slices names at byte offsets 0..3, 7..10 and 12..15, and day 15 cuts the label off a step by its byte length and hashes the step's bytes; the model indexes characters, which agree with the bytes on ASCII input only.
- Text.Words, Text.Trim and Text.IsSpace: whitespace is the six ASCII characters space, tab, line feed, vertical tab, form feed and carriage return. Rust's `split_whitespace` and `trim` also treat the other Unicode White_Space characters as whitespace. Day 7's `split_ascii_whitespace` (aoc-07/src/main.rs:118) does not split at vertical tab, but `Text.Words` does.
- Hard-coded sizes: the grid sides 140 (days 3, 10, 11), 110 (day 16) and 100 (day 14), the 215 card slots of day 4 and the 21 readings of day 9 are named constants with the source's values. Two sizes are parameters instead: day 17's grid side, and the slot count `n` of `Scratchcards.PartTwo`, with 215 as the source's value.
- HauntedWasteland.StepCount: `step_count` loops until the condition holds, which may never happen; the model takes a `fuel` bound on the number of steps and returns nothing when the bound is reached.
- Extrapolate: its own contract states only the two base cases of `extrapolate`. The value it computes is characterised by `MirageMaintenance.ExtrapolateIsNext` and `MirageMaintenance.NextUnique`: it is the one next reading that keeps the difference table reaching zeros at the same row.
- PipeMaze.Walk: the two-walker loop of `part_one` carries a fuel of 19600 rounds, the number of tiles, and returns nothing when it runs out.
- ParabolicDish.PartTwo: the tortoise-and-hare loop is searched up to a billion cycles, the number `part_two` goes on to skip to; a platform that never repeats within that bound gives nothing.
- Aplenty.Accepted: the recursion through workflows carries a `fuel` bound, because a cycle of workflows would recurse for ever in the source; the same bound limits `Aplenty.Ranges`.
- PipeMaze.Ends: coordinates are integers, so where `adjacent_pipes` computes `coord - 1` on row or column 0 (a `usize` underflow, a panic in a debug build) the model gives the off-field tile `-1`, which `Increment` then rejects as off the field; `Adj` itself works on signed offsets, as `adjacent_coords` does.
- CamelCards.SortEntries: `sort_unstable_by` is modelled by one sorted order. When no two hands hold the same cards, `CamelCards.SortedUnique` shows that this order is the only one. Two hands with the same cards and different bids compare equal, and the program's answer then depends on which order the unstable sort picks; the model fixes one.
- ParabolicDish.SortRocks: north uses `sort_unstable` on whole coordinates, which orders rocks by row and then column, exactly as the model does. East, south and west use `sort_unstable_by` on one coordinate, which the model completes with a tie-break on the other coordinate. Rocks that tie on the sorted coordinate lie on different lines, so they do not block one another while rolling, but the order of the rock list afterwards follows the tie-break. The model fixes this one tie order; it does not prove that other tie orders give the same platform.
- ParabolicDish.ParseLines: a rock outside the 100 by 100 square is rejected. The source would index out of the grid and usually panic.
- CosmicExpansion.Expanded: the multiplier is required to be at least 1. The source uses only 2 and 1000000.
- SandSlabs.ParseInput: overlapping bricks in the input are not rejected, as in the source. The proofs that bricks stay apart assume they start apart.
- SandSlabs.SettleLoop: the settled arrangement is characterised by being at rest, lower and in the same stacking order; that it is the only such arrangement is not proved.
- SandSlabs.Settle: a brick at level 0 makes the `u16` subtraction in `Brick::lowered` underflow; the model returns nothing there.
- Aplenty.Ranges: the corrected splitter drops empty pieces. They hold no part and would add volume 0.
- GearRatios.Solve: is built on the corrected right-edge check `GearRatios.Checked` (see Findings), so a number ending at column 138 with a symbol at column 139 counts here and not in the program.
- Almanac.ParseMappings: reads each map with the corrected `Almanac.ParseMapping` (see Findings), so it does not swallow the first range line of the second to seventh maps as the program does. `Almanac.ParseMappingAsWritten` models the program's reader.
- Almanac.ParseInput: builds on `Almanac.ParseMappings`, so it gives the almanac the corrected reader reads, not the program's.
- Aplenty.PartTwo: adds up the pieces of the corrected `Aplenty.Ranges` (see Findings), which intersects each split with the current interval. `Aplenty.SplitAsWritten` models the program's overwriting splitter.
- Aplenty.PartTwo: the sum of the volumes is not proved equal to the number of accepted rating tuples, which would need set cardinalities over 4000⁴ parts. What is proved is that the pieces are pairwise apart (`Aplenty.PartTwoDistinct`) and hold exactly the accepted parts (`Aplenty.PartTwoMatchesPartOne`).
- Per-start grid clones of day 16 and the brute-force smudge search of day 13 are kept as written; their cost is not modelled.

## Findings

| source | as written | input that shows it | evidently intended | confidence | as-written member | corrected member |
|---|---|---|---|---|---|---|
| aoc-05/src/main.rs:106-107 | `parse_mapping` skips two lines before reading ranges, but the previous call's `loop` already consumed the blank line that ends a block (it takes each line with `lines.next()` and breaks on `line.is_empty()`), so the second skipped line is the next block's first range line | the lines `seeds: 1`, (empty), `a map:`, (empty), `b map:`, `4 5 6`: the second map is read as empty, without the range `4 5 6` | skip blank lines, then the one header line | not executed | Almanac.SkipSwallowsRange | Almanac.ParseMappingReadsBlock |
| aoc-03/src/main.rs:114-123 | the right-hand neighbour is checked only when `end < GRID_SIZE - 1`, so a number ending at column 138 never looks at column 139 | a row `...12#` of 140 columns, with `12` ending at column 138 and `#` at column 139: `12` is not counted as a part number | `end < GRID_SIZE` | not executed | GearRatios.RightEdgeMissed | GearRatios.Checked |
| aoc-19/src/main.rs:192-200 | `calc_accepted_ranges` overwrites the bounds of a category with `val - 1`, `val` or `val + 1` instead of intersecting them with the current interval, and keeps splitting after an unconditional rule | `in{x>2000:R,x<3000:A,R}`: the accepted box is `x in 1..=2999`, which holds x=2500, yet `accepted` rejects it | intersect each split with the current interval | not executed | Aplenty.SplitAsWrittenOverreaches | Aplenty.RangesAccepted |
