# Advent of Code 2021, days 1 to 15, in Dafny

This project models the puzzle solvers of the advent-of-code-2021
repository. Each crate `crates/dayNN` reads its puzzle input as one string
and computes the answers to the puzzle's two parts. One Dafny module
models each crate, in `dayNN.dfy`:

- Day01 (sonar sweep): counts the depth increases, of single readings and of sliding windows of three.
- Day02 (dive): steers the submarine by commands, without and with an aim.
- Day03 (binary diagnostic): finds the gamma and epsilon rates, then filters down to the oxygen and CO2 ratings.
- Day04 (giant squid): plays bingo on 5×5 boards, with a `Board` class whose row and column counters are updated in place.
- Day05 (hydrothermal venture): draws vent lines onto the ocean floor and counts the overlaps.
- Day06 (lanternfish): simulates fish timers, as a list and as nine counters.
- Day07 (treachery of whales): finds the cheapest alignment under linear and triangular fuel costs.
- Day08 (seven segment search): deduces the wiring of each display and reads its output digits.
- Day09 (smoke basin): finds the low points of a height map and floods their basins.
- Day10 (syntax scoring): scans bracket lines with a stack and scores corrupted and incomplete lines.
- Day11 (dumbo octopus): steps a 10×10 grid of energies held in a `Cavern` class over an array, with cascading flashes.
- Day12 (passage pathing): enumerates the paths through a cave system.
- Day13 (transparent origami): folds a `Paper` of dots and draws the result.
- Day14 (extended polymerization): grows a polymer by pair insertion, directly and by counting pairs.
- Day15 (chiton): finds a path from corner to corner with an A*-style search, on the grid and on the grid tiled five times.

Shared modules hold what the crates take from Rust's standard library:

- `Wrappers`: `Option`, `Result`, and `Reading`, which tells a parse error apart from a panic.
- `Text`: splitting, lines, trimming, and integer parsing with Rust's range checks.
- `Sums`: sums over sequences and over sets, and the size of the set of a list without repeats.
- `Sorting`: a sort standing in for `sort`.

Each crate's `solve_part1` and `solve_part2` is a method, proved against
functions that define the answer. A parse error becomes `Err`. A panic
becomes a precondition that excludes the inputs causing it. Loops that
update variables are methods with loop invariants. Fields the source
updates in place are class fields: the counters of a bingo board, the
energy grid of the cavern and the dots of the paper.

## Model

| member | source | states |
|---|---|---|
| Day01.ParseReadings | crates/day01/src/main.rs:11-12 | defines the readings: each line parsed as an `i32`, the first line that does not parse failing the whole input; `Text.ParseAll` proves it parses exactly when every line does |
| Day01.CountReadingIncreases | crates/day01/src/main.rs:9-21 | fails exactly when some line is not an `i32`; otherwise returns the number of readings larger than their predecessor |
| Day01.SolvePart1 | crates/day01/src/main.rs:6-22 | `solve_part1` on the trimmed input's lines: error iff a line does not parse, else the count of increases |
| Day01.WindowSums | crates/day01/src/main.rs:29-30 | one sum per three-line window, `|a| - 2` of them, each the sum of three consecutive readings |
| Day01.CountWindowIncreases | crates/day01/src/main.rs:27-39 | with every window parsing, returns the number of window sums larger than the previous one, which equals the readings larger than the one three before; 0 for fewer than three lines |
| Day01.SolvePart2 | crates/day01/src/main.rs:24-40 | `solve_part2` on the trimmed input: the window increase count as above |
| Day01.CountGaps | crates/day01/src/main.rs:13-16 | the count of later-than-predecessor comparisons is bounded by the number of pairs compared |
| Day01.CountIncreases | crates/day01/src/main.rs:13-16 | no increases with at most one reading; at most one per adjacent pair |
| Day01.CountGapsOfPrefix | crates/day01/src/main.rs:13-18 | one more reading adds one increase exactly when it exceeds the reading `k` places before |
| Day01.WindowIncreasesAreGapsOfThree | crates/day01/src/main.rs:29-37 | the window increases of part 2 are exactly the readings larger than the one three before (the shared middle readings cancel) |
| Day01.WindowOfLines | crates/day01/src/main.rs:30 | each line of a window parses to the reading at its index |
| Day01.SampleSweep | crates/day01/src/main.rs:52-60 | the puzzle's ten-reading sweep has 7 increases and 5 window increases |
| Day02.CommandOf | crates/day02/src/main.rs:17-21 | the three command words map to their commands and to nothing else (any other word is the source's panic) |
| Day02.LineStep | crates/day02/src/main.rs:13-15 | a readable line yields a step exactly when its second piece parses as an `i32`, with that value and the first piece's command |
| Day02.ParseSteps | crates/day02/src/main.rs:12-15 | a successful parse has one step per line |
| Day02.ParseStepsReadsEachLine | crates/day02/src/main.rs:12-15 | a successful parse reads every line: each step is its line's command with its value |
| Day02.ReadNextLine | crates/day02/src/main.rs:12-15 | reading one more line either fails the whole input or appends that line's step |
| Day02.NoPanicPrefix | crates/day02/src/main.rs:12-22 | an input that cannot panic has no prefix that can |
| Day02.ParseErrorPersists | crates/day02/src/main.rs:15 | once a prefix has an unparsable value the whole input fails |
| Day02.ReadStep | crates/day02/src/main.rs:13-15 | one line read as the source reads it agrees with `LineStep` |
| Day02.Dive | crates/day02/src/main.rs:9-25 | error iff some value is not an `i32`; otherwise horizontal times depth after the direct moves |
| Day02.AimedDive | crates/day02/src/main.rs:31-51 | error iff some value is not an `i32`; otherwise horizontal times depth after the aimed moves |
| Day02.FollowTotals | crates/day02/src/main.rs:17-22 | part 1 ends at horizontal = total forward, depth = total down minus total up |
| Day02.DirectProduct | crates/day02/src/main.rs:25 | part 1's answer is total forward times (down minus up) |
| Day02.AimIsDirectDepth | crates/day02/src/main.rs:40-48 | part 2 moves horizontally as part 1 does and its aim is part 1's depth |
| Day02.AimedDepthIsDescent | crates/day02/src/main.rs:41-44 | part 2's depth is the sum over forward steps of value times the aim so far |
| Day02.SolvePart1 | crates/day02/src/main.rs:6-26 | `solve_part1`: error iff a value does not parse, else the part 1 product |
| Day02.SolvePart2 | crates/day02/src/main.rs:28-52 | `solve_part2`: error iff a value does not parse, else total forward times the aimed descent |
| Day02.SampleCourseDirect | crates/day02/src/main.rs:64-67 | the sample course gives 150 under part 1 |
| Day02.SampleCourseAimed | crates/day02/src/main.rs:69-72 | the sample course gives 900 under part 2 |
| Day03.ColumnSums | crates/day03/src/main.rs:6-19 | one counter per UTF-8 byte of the first line (`len()`), counter i being the number of lines whose character i is '1' |
| Day03.ColumnCount | crates/day03/src/main.rs:11-14 | a column count never exceeds the number of lines |
| Day03.GetColumnSums | crates/day03/src/main.rs:6-19 | the counters, allocated by the first line's byte length and indexed by character position, end as `ColumnSums` |
| Day03.Rate | crates/day03/src/main.rs:26-38 | a rate built from one bit per column fits in that many bits |
| Day03.RatesAreComplements | crates/day03/src/main.rs:33-37 | gamma and epsilon are bitwise complements: they sum to 2^width - 1 |
| Day03.GammaLowBit | crates/day03/src/main.rs:29-35 | gamma's lowest bit is the majority bit of the last column |
| Day03.SolvePart1 | crates/day03/src/main.rs:21-41 | `solve_part1` returns gamma times epsilon over the byte-width counters, computed with the integer half `len / 2`, and the two rates are complements |
| Day03.NonAsciiColumns | crates/day03/src/main.rs:7 | on the report "é1" there are three counters [0, 1, 0], so part 1 gives 2 × 5 = 10 |
| Day03.KeepMatching | crates/day03/src/main.rs:55-65 | `retain` keeps exactly the lines with the given character at the column, each from the input |
| Day03.ZerosComplementOnes | crates/day03/src/main.rs:54-65 | on binary lines the '0' lines and the '1' lines at a column partition the list |
| Day03.OxygenNeverEmpties | crates/day03/src/main.rs:53-59 | the oxygen filter keeps at least one line |
| Day03.Co2FilterCanEmpty | crates/day03/src/main.rs:50-51 | when every line shares its first bit the CO2 list empties and the next column count panics on the empty list |
| Day03.FilteringStep | crates/day03/src/main.rs:49-71 | one iteration keeps the width and either finds both ratings or continues with the next column |
| Day03.FilterOxygen | crates/day03/src/main.rs:50-59 | recount and retain the majority bit (ties keep '1'), as `OxygenStep` |
| Day03.FilterCo2 | crates/day03/src/main.rs:51-67 | recount and retain the minority bit (ties keep '0'), as `Co2Step` |
| Day03.Ratings | crates/day03/src/main.rs:43-75 | defines how `solve_part2`'s loop ends: both ratings found, the columns used up, or a panic on an emptied list or past the last character; `FilteringStep`, `Co2FilterCanEmpty` and `NonAsciiRunsOut` prove its cases and `FilterRatings` computes it |
| Day03.FilterRatings | crates/day03/src/main.rs:46-74 | the loop over the first line's byte length finds the two ratings exactly when the filtering reaches one line each before the columns run out |
| Day03.NonAsciiRunsOut | crates/day03/src/main.rs:49-52 | on "é", "é" both lists empty at column 0 and the byte width leaves a column 1, whose count panics |
| Day03.SolvePart2 | crates/day03/src/main.rs:43-75 | `solve_part2`: Ok iff both ratings are found and parse as `i32` in base 2, with their product |
| Day04.CellsOf | crates/day04/src/main.rs:9-16 | the cells of a board are its numbers, marked exactly when drawn |
| Day04.DrawCells | crates/day04/src/main.rs:42-56 | drawing marks, row by row, the unmarked cells holding the drawn number |
| Day04.DrawCellsOf | crates/day04/src/main.rs:42-56 | drawing `n` turns the board for a drawn set into the board for that set plus `n` |
| Day04.DrawTwice | crates/day04/src/main.rs:45-47 | drawing the same number twice changes nothing the second time |
| Day04.CountMarked | crates/day04/src/main.rs:48-51 | a line's marked count is at most its length |
| Day04.CountMarkedFull | crates/day04/src/main.rs:59-60 | a line's count reaches its length exactly when every cell in it is marked |
| Day04.CountMarkedNone | crates/day04/src/main.rs:33-37 | a line with nothing marked counts zero |
| Day04.CountMarkedUpdate | crates/day04/src/main.rs:47-51 | marking one unmarked cell adds one to its line's count |
| Day04.Column | crates/day04/src/main.rs:44 | a column has five cells |
| Day04.CountersDecideWin | crates/day04/src/main.rs:58-65 | with counters that agree with the cells, a counter reaches 5 exactly when a row or column is complete |
| Day04.RowCountersDecide | crates/day04/src/main.rs:59 | a row counter at 5 exactly when a row is fully marked |
| Day04.ColumnCountersDecide | crates/day04/src/main.rs:60 | a column counter at 5 exactly when a column is fully marked |
| Day04.MarkKeepsCounters | crates/day04/src/main.rs:47-51 | marking a cell and bumping its row and column counters keeps counters and cells in agreement |
| Day04.UnmarkedSum | crates/day04/src/main.rs:67-77 | defines `Board::score` as the sum of the unmarked numbers; `MarkRowScore` and `ScoreAfterDraw` prove how a draw lowers it |
| Day04.MarkRowScore | crates/day04/src/main.rs:67-77 | drawing in a row lowers its unmarked sum by `n` per unmarked copy of `n` |
| Day04.ScoreAfterDraw | crates/day04/src/main.rs:67-77 | drawing `n` lowers the board's score by `n` per unmarked copy of `n` |
| Day04.Board.constructor | crates/day04/src/main.rs:33-37 | a fresh board has nothing marked and empty counters |
| Day04.Board.Draw | crates/day04/src/main.rs:42-56 | `draw` leaves the board as `DrawCells` of the old one, counters in agreement |
| Day04.Board.DrawRow | crates/day04/src/main.rs:44-54 | one row pass marks that row and no other |
| Day04.Board.Mark | crates/day04/src/main.rs:47-51 | marks one cell and bumps its row and column counters from 0 when absent |
| Day04.Board.IsWin | crates/day04/src/main.rs:58-65 | `is_win` holds exactly when a row or column is fully marked |
| Day04.Board.Score | crates/day04/src/main.rs:67-77 | `score` is the sum of the unmarked numbers |
| Day04.Blank | crates/day04/src/main.rs:25 | `from_str` starts from a 5×5 grid of zeros |
| Day04.FillRow | crates/day04/src/main.rs:28-30 | filling one line keeps a 5×5 grid, or fails on a bad number or panics out of bounds |
| Day04.BoardWords | crates/day04/src/main.rs:27-28 | one word list per line of the group |
| Day04.FillLines | crates/day04/src/main.rs:24-38 | the lines of a group fill a 5×5 grid, the first failure deciding |
| Day04.FillRowBounds | crates/day04/src/main.rs:29 | a row that was filled was inside the array |
| Day04.FillRowCell | crates/day04/src/main.rs:29 | after a row is filled its `x`-th cell holds the `x`-th word as a `u8` |
| Day04.FillRowKeeps | crates/day04/src/main.rs:29 | filling a row leaves every other cell alone |
| Day04.FillLinesFront | crates/day04/src/main.rs:27-31 | a parsed group's earlier lines parsed too |
| Day04.ParseBoard | crates/day04/src/main.rs:24-39 | defines `Board::from_str` on the numbers: the grid filled line by line and word by word, the first bad number an error and a word outside 5×5 a panic; `ParsedBoardCell` and `ParsedBoardBlank` prove where each number lands |
| Day04.ParsedBoardCell | crates/day04/src/main.rs:27-31 | every word of a parsed group is the `u8` at its row and column |
| Day04.ParsedBoardBlank | crates/day04/src/main.rs:25-31 | a cell with no word keeps 0 |
| Day04.ParseBoards | crates/day04/src/main.rs:92-94 | one 5×5 grid per group, the first failing group deciding |
| Day04.Setup | crates/day04/src/main.rs:81-94 | the draws are read before the boards, so a bad draw is reported first |
| Day04.DrawnNext | crates/day04/src/main.rs:96 | the drawn set after draw `k` adds that draw |
| Day04.FirstBoard | crates/day04/src/main.rs:97-102 | the first board from `b` on with bingo at draw `k`; none before it has bingo, and none at all when absent |
| Day04.FirstWinner | crates/day04/src/main.rs:96-105 | the earliest draw at which some board has bingo, and the first such board; none when no board ever wins |
| Day04.Losers | crates/day04/src/main.rs:134-139 | `retain` keeps exactly the live boards without bingo |
| Day04.LastWinner | crates/day04/src/main.rs:124-143 | the part 2 answer is a live board that has bingo at the reported draw |
| Day04.AllBoards | crates/day04/src/main.rs:118-122 | the boards in input order |
| Day04.LastWinnerIsLast | crates/day04/src/main.rs:124-143 | the board part 2 reports first wins at the reported draw, and every other board won at an earlier draw |
| Day04.LastWinnerFrom | crates/day04/src/main.rs:124-141 | the same from any point of the play where the dropped boards have already won |
| Day04.MakeBoards | crates/day04/src/main.rs:90-94 | one fresh, distinct, unmarked board per grid |
| Day04.DrawBoard | crates/day04/src/main.rs:98 | draws on one board; the others keep their cells |
| Day04.DrawRound | crates/day04/src/main.rs:97-102 | one draw over the boards in order returns the first board with bingo, and leaves all boards drawn when none wins |
| Day04.PlayFirst | crates/day04/src/main.rs:96-105 | the draw loop returns the first winner's score times its draw, or none |
| Day04.SolvePart1 | crates/day04/src/main.rs:80-106 | `solve_part1`: a parse error, else the first winner's final score, else the no-winner error |
| Day04.DrawAll | crates/day04/src/main.rs:131-133 | every live board is drawn |
| Day04.Retain | crates/day04/src/main.rs:134-139 | the boards kept are exactly the losers, in order |
| Day04.PickedTracks | crates/day04/src/main.rs:134-139 | boards kept in order stay distinct and in step with their grids |
| Day04.DrawLone | crates/day04/src/main.rs:125-129 | the lone board is drawn and scored exactly when it wins |
| Day04.PlayRound | crates/day04/src/main.rs:124-140 | one draw of part 2 either scores the lone winner or continues with the losers, keeping the same eventual answer |
| Day04.PlayLast | crates/day04/src/main.rs:124-143 | the part 2 loop returns `LastWinner`'s final score, or none |
| Day04.SolvePart2 | crates/day04/src/main.rs:108-144 | `solve_part2`: a parse error, else the last winner's final score, else the no-winner error |
| Day05.ReadPoint | crates/day05/src/main.rs:38-40 | defines one point "x,y": the first piece before ',' parsed as an `i32` first, a parse error there reported before a missing second piece panics, then the second piece parsed; `ReadVentsReadsEachLine` proves what the lines give |
| Day05.ReadVent | crates/day05/src/main.rs:35-51 | defines one line's reading: the vent of "x1,y1 -> x2,y2", a parse error when a coordinate read before the first missing piece is not an `i32`, and the unwrap panic when a piece is missing |
| Day05.ReadVents | crates/day05/src/main.rs:31-53 | defines `parse_vents`: the vents of the lines in order, the first failing line deciding; `ReadVentsReadsEachLine` proves its meaning |
| Day05.ReadVentsReadsEachLine | crates/day05/src/main.rs:31-54 | the input gives vents exactly when every line does, one vent per line in order |
| Day05.PointsAreCovered | crates/day05/src/main.rs:59-103 | the points a line visits are exactly the points it covers, each once: |dy| + 1 of them for a vertical line, |dx| + 1 otherwise |
| Day05.CoverageIgnoresDirection | crates/day05/src/main.rs:60-83 | an axis-aligned or 45-degree line covers the same points from either end |
| Day05.SteepnessIgnored | crates/day05/src/main.rs:85-102 | a line that is not at 45 degrees is walked diagonally until x passes its end, so (0,0)->(2,1) covers (2,2) and not (2,1) |
| Day05.Covers | crates/day05/src/main.rs:59-103 | defines the points one vent covers: the span of a vertical or horizontal line in either direction, and otherwise the |dx| + 1 points of the source's diagonal walk from the start |
| Day05.Coverage | crates/day05/src/main.rs:59 | no point is covered by more vents than there are |
| Day05.Bump | crates/day05/src/main.rs:63-64 | `entry(p).or_insert(0)` then `+= 1` adds one to `p`'s count and nothing else |
| Day05.CoverColumn | crates/day05/src/main.rs:61-71 | the loop over a vertical line adds one to each point of the column in range |
| Day05.CoverRow | crates/day05/src/main.rs:73-83 | the loop over a horizontal line adds one to each point of the row in range |
| Day05.CoverDiagonal | crates/day05/src/main.rs:85-102 | the `while` loop adds one to each point the line covers |
| Day05.CoverVent | crates/day05/src/main.rs:59-103 | one vent adds one to each point it covers and leaves the rest |
| Day05.GetCoveredPoints | crates/day05/src/main.rs:56-107 | `get_covered_points` maps every covered point, and only those, to the number of vents covering it |
| Day05.Overlaps | crates/day05/src/main.rs:117-120 | counting the overlaps counts at most the stored entries |
| Day05.SpanIsCovered | crates/day05/src/main.rs:56-107 | a point lies in the span of the vents exactly when some vent covers it |
| Day05.OverlapsAreDangerous | crates/day05/src/main.rs:117-130 | counting the counts of at least 2 counts the points covered by two or more vents |
| Day05.AxisAligned | crates/day05/src/main.rs:111-114 | part 1 keeps exactly the vertical and horizontal vents |
| Day05.Solve | crates/day05/src/main.rs:109-131 | `solve_part1` (no diagonals) and `solve_part2`: a parse error exactly when some line fails, else the number of points covered at least twice |
| Day06.CountOf | crates/day06/src/main.rs:45-47 | no more fish with a timer than fish |
| Day06.CountOfAppend | crates/day06/src/main.rs:10 | counting timers distributes over the pushed newborns |
| Day06.Aged | crates/day06/src/main.rs:7-13 | every existing fish is a day older: 0 resets to 6, any other timer counts down |
| Day06.Newborns | crates/day06/src/main.rs:10 | each fish born is pushed with timer 8 |
| Day06.DayAfter | crates/day06/src/main.rs:6-15 | defines the school after one day: every fish aged, then one newborn at 8 per fish that was at 0; `SimulateDay` is proved to compute it |
| Day06.DaysAfter | crates/day06/src/main.rs:29-31 | defines the school after n days as n single days in turn |
| Day06.SimulateDay | crates/day06/src/main.rs:6-15 | `simulate_day` ages the fish present when it starts and appends one newborn per fish at 0 |
| Day06.DayAfterLength | crates/day06/src/main.rs:6-15 | a day grows the school by the number of fish at 0 |
| Day06.DayAfterInRange | crates/day06/src/main.rs:6-15 | timers stay between 0 and 8 |
| Day06.Histogram | crates/day06/src/main.rs:43-47 | counter `t` holds the number of fish with timer `t` |
| Day06.StepCounts | crates/day06/src/main.rs:17-20 | a histogram step keeps nine counters |
| Day06.CountsAfter | crates/day06/src/main.rs:49-51 | the histogram after any number of days keeps nine counters |
| Day06.SimulateDayWithMap | crates/day06/src/main.rs:17-20 | `simulate_day_with_map` rotates the array left in place and adds the new counter 8 into counter 6 |
| Day06.PrefixTotalIsTotal | crates/day06/src/main.rs:53 | the summing loop adds up all nine counters |
| Day06.TotalOfHistogram | crates/day06/src/main.rs:43-47 | the histogram counts every fish once |
| Day06.TotalAfterStep | crates/day06/src/main.rs:17-20 | a histogram step adds the fish at 0 to the total |
| Day06.CountOfAged | crates/day06/src/main.rs:7-13 | after ageing none is at 8, those at 6 were at 7 or 0, the rest were one above |
| Day06.CountOfNewborns | crates/day06/src/main.rs:10 | the newborns all sit at 8 |
| Day06.HistogramCommutes | crates/day06/src/main.rs:6-20 | the histogram of the school a day later is one histogram step of today's histogram |
| Day06.HistogramTracksDays | crates/day06/src/main.rs:29-31 | over any number of days the histogram simulation tracks the list simulation and its total is the school's size |
| Day06.ParseFish | crates/day06/src/main.rs:23-27 | every parsed timer is a `u8` |
| Day06.BuildHistogram | crates/day06/src/main.rs:43-47 | the counting loop builds the histogram |
| Day06.SimulateDays | crates/day06/src/main.rs:29-31 | the day loop runs `simulate_day` the given number of times |
| Day06.SolvePart1 | crates/day06/src/main.rs:22-34 | `solve_part1`: a parse error, else the size of the school after 80 days |
| Day06.SumCounters | crates/day06/src/main.rs:53 | the sum of the nine counters |
| Day06.SimulateWithMap | crates/day06/src/main.rs:43-53 | the total of the histogram after the given number of histogram steps |
| Day06.SolvePart2 | crates/day06/src/main.rs:36-54 | `solve_part2`: a parse error, else the histogram total after 256 days, which is the size of the school the list simulation would reach |
| Day07.LinearFuel | crates/day07/src/main.rs:36-38 | defines `linear_fuel` as the distance between position and center; `LinearFuelProperties` proves its meaning |
| Day07.SummationFuel | crates/day07/src/main.rs:40-43 | defines `summation_fuel` as d(d+1)/2 of the distance d; `SummationFuelIsTriangle` proves it is the sum 1 + … + d |
| Day07.TotalFuel | crates/day07/src/main.rs:22 | defines the fuel all crabs spend to reach a center as the sum of their fuels |
| Day07.LinearFuelProperties | crates/day07/src/main.rs:36-38 | the linear fuel is symmetric, zero exactly when the crab is at the center, and at least the distance either way |
| Day07.SummationFuelIsTriangle | crates/day07/src/main.rs:40-43 | the closed form `d(d+1)/2` is the sum 1 + 2 + ... + d of one more unit per step |
| Day07.Min | crates/day07/src/main.rs:16 | the least position, which is one of the positions |
| Day07.Max | crates/day07/src/main.rs:17 | the greatest position, which is one of the positions |
| Day07.FindBestFuel | crates/day07/src/main.rs:15-34 | `find_best_fuel` always finds a total, no more than the total at any center between min and max and equal to one of them |
| Day07.ParsePositions | crates/day07/src/main.rs:7-13 | a successful parse has at least one position |
| Day07.Solve | crates/day07/src/main.rs:45-55 | `solve_part1`/`solve_part2`: a parse error, else the least total fuel over the centers between the extreme positions |
| Day07.TotalFuelNext | crates/day07/src/main.rs:22 | the total over one more crab adds that crab's fuel |
| Day07.SampleLinearFuel | crates/day07/src/main.rs:60-76 | in the sample, aligning at 2 costs 37 under the linear rule |
| Day07.SampleSummationFuel | crates/day07/src/main.rs:60-76 | in the sample, aligning at 5 costs 168 under the triangular rule |
| Day08.Chars | crates/day08/src/main.rs:17-20 | the `HashSet` of a pattern holds exactly its characters |
| Day08.NoRepeatsChars | crates/day08/src/main.rs:22 | a pattern without repeats has as many distinct characters as characters |
| Day08.Sides | crates/day08/src/main.rs:12 | splitting at " \| " gives at least one side |
| Day08.CountUnique | crates/day08/src/main.rs:16-25 | the patterns counted are at most the outputs |
| Day08.CountUniqueOutputs | crates/day08/src/main.rs:16-25 | the inner loop counts the outputs with 2, 3, 4 or 7 distinct segments |
| Day08.CountUniqueInLines | crates/day08/src/main.rs:11-26 | the outer loop sums those counts over the lines |
| Day08.SolvePart1 | crates/day08/src/main.rs:7-29 | `solve_part1`: the count over all lines (every line must have an output side) |
| Day08.TakeEasy | crates/day08/src/main.rs:41-68 | the first `retain` fills the four sets and keeps the other patterns |
| Day08.EasySets | crates/day08/src/main.rs:45-68 | defines the first `retain` pass: the characters of the patterns of byte length 2, 3, 4 and 7 go into `one`, `seven`, `four` and `eight`; `EasySlotIs` and `EasySetsOf` prove what each set holds |
| Day08.EasySlotIs | crates/day08/src/main.rs:45-66 | the set filled from the patterns of one unique length is their characters, or empty |
| Day08.NotEasyMembers | crates/day08/src/main.rs:45-68 | the first `retain` keeps exactly the patterns whose length is not 2, 3, 4 or 7 |
| Day08.TakeSixes | crates/day08/src/main.rs:70-90 | the second `retain` classifies the 6-byte patterns into nine, zero and six and keeps the others |
| Day08.SixSets | crates/day08/src/main.rs:73-90 | defines the second `retain` pass: each pattern of byte length 6 is assigned to `nine`, `zero` or `six` by its supersets, a later one replacing an earlier one; `SixSlotIs` and `SixSetsOf` prove what each set holds |
| Day08.SixSlotIs | crates/day08/src/main.rs:73-88 | the set of a six-segment class is its patterns' characters, or empty |
| Day08.NotSixMembers | crates/day08/src/main.rs:73-90 | the second `retain` keeps exactly the patterns whose length is not 6 |
| Day08.TakeFives | crates/day08/src/main.rs:95-111 | the last loop classifies the remaining patterns into five, three and two |
| Day08.FiveSlotIs | crates/day08/src/main.rs:98-111 | the set of a five-segment class is its patterns' characters, or empty |
| Day08.Wiring | crates/day08/src/main.rs:122-141 | ten sets, indexed by digit |
| Day08.Deduce | crates/day08/src/main.rs:41-111 | defines one line's deduction: the ten wire sets from the three `retain` passes, none where `next().unwrap()` panics; `DeductionIsCorrect` proves it recovers every digit's wires |
| Day08.DigitOf | crates/day08/src/main.rs:122-144 | the first digit, tried from 0 to 9, whose set equals the pattern's; none when no set does |
| Day08.ReadDigits | crates/day08/src/main.rs:113-146 | one character per output pattern, or none when one matches no set (the panic) |
| Day08.DecodeLine | crates/day08/src/main.rs:36-148 | one line of `solve_part2`: its value, or the error when its digits do not form a `u32` |
| Day08.DisplayValue | crates/day08/src/main.rs:113-148 | defines one display's value: the output digits read as a `u32`, a panic when the deduction or a digit panics, a parse error when the digits do not fit; `DisplayReadsDigits` proves its meaning |
| Day08.LineValue | crates/day08/src/main.rs:36-148 | defines one line of `solve_part2`: a panic without " \| ", otherwise the display's value |
| Day08.DecodeDisplay | crates/day08/src/main.rs:41-148 | the deduction and reading of one display agree with `DisplayValue` |
| Day08.SolvePart2 | crates/day08/src/main.rs:31-152 | `solve_part2`: the sum of the lines' values, or the first line's error |
| Day08.SegmentsOf | crates/day08/src/main.rs:46-111 | the standard segments of each digit: which counts are unique, and how the six- and five-segment digits classify |
| Day08.SegmentsDistinct | crates/day08/src/main.rs:122-141 | different digits light different segments |
| Day08.LitMember | crates/day08/src/main.rs:104-106 | a wire is lit exactly when its segment is |
| Day08.LitSubset | crates/day08/src/main.rs:80-82 | distinct wires preserve inclusion between segment sets |
| Day08.LitMinus | crates/day08/src/main.rs:92-93 | wiring commutes with set difference |
| Day08.LitCard | crates/day08/src/main.rs:46-61 | as many wires as segments |
| Day08.PatternLength | crates/day08/src/main.rs:46-74 | a pattern for digit `d` has `d`'s segment count as its length |
| Day08.EasyDigit | crates/day08/src/main.rs:45-66 | the set filled for a unique length is the wires of the one digit with that many segments |
| Day08.NotEasyDigits | crates/day08/src/main.rs:45-68 | the first `retain` keeps the patterns of the 5- and 6-segment digits |
| Day08.Lits | crates/day08/src/main.rs:122-141 | the wires of each digit, ten sets |
| Day08.ClassifySixLit | crates/day08/src/main.rs:80-86 | wiring does not change how a six-segment pattern classifies |
| Day08.ClassifyFiveLit | crates/day08/src/main.rs:104-110 | wiring does not change how a five-segment pattern classifies |
| Day08.SixDigit | crates/day08/src/main.rs:73-88 | the set assigned for a six-segment class is the wires of its one digit |
| Day08.FiveMember | crates/day08/src/main.rs:98-111 | a retained five-segment pattern of a class shows the one digit of that class |
| Day08.FiveWitness | crates/day08/src/main.rs:98-111 | the pattern of each five-segment digit is retained and classified as its digit |
| Day08.FiveDigit | crates/day08/src/main.rs:98-111 | the set assigned for a five-segment class is the wires of its one digit |
| Day08.EasySetsOf | crates/day08/src/main.rs:41-68 | one, seven, four and eight are filled with their digits' wires |
| Day08.SixSetsOf | crates/day08/src/main.rs:70-90 | zero, six and nine are assigned their digits' wires |
| Day08.FiveSetsOf | crates/day08/src/main.rs:95-111 | two, three and five are assigned their digits' wires |
| Day08.MissingSegments | crates/day08/src/main.rs:92-93 | eight minus six is the top-right wire and eight minus nine the bottom-left one, so `next()` has one choice |
| Day08.SegmentDifferences | crates/day08/src/main.rs:92-93 | eight lacks 'c' in six and 'e' in nine |
| Day08.DeductionIsCorrect | crates/day08/src/main.rs:41-111 | on any correctly wired display the deduction recovers the wires of every digit, whatever order the hash sets iterate in |
| Day08.ReadsDigit | crates/day08/src/main.rs:122-141 | each digit's wires read back as that digit |
| Day08.ReadsDigits | crates/day08/src/main.rs:113-146 | the outputs of a correctly wired display read back as their digits |
| Day08.ReadDigitsSnoc | crates/day08/src/main.rs:113-146 | reading one more output appends its digit |
| Day08.DigitStringSnoc | crates/day08/src/main.rs:146 | the characters of one more digit append its character |
| Day08.DigitString | crates/day08/src/main.rs:146 | one character per digit |
| Day08.DigitStringValue | crates/day08/src/main.rs:147 | the digit characters parse as the number they spell |
| Day08.DisplayReadsDigits | crates/day08/src/main.rs:36-148 | a correctly wired display's value is the number its outputs spell, or an error when that is not a `u32` |
| Day08.UniqueMeansEasyDigit | crates/day08/src/main.rs:22 | an output has a unique segment count exactly when it lights 1, 4, 7 or 8 |
| Day08.EasyDigits | crates/day08/src/main.rs:22 | those digits are at most all the digits |
| Day08.CountUniqueIsEasyDigits | crates/day08/src/main.rs:16-25 | part 1 counts the ones, fours, sevens and eights among the outputs |
| Day09.ParseRow | crates/day09/src/main.rs:11-13 | a line parses exactly when every character is a decimal digit, one height per character |
| Day09.ParseGrid | crates/day09/src/main.rs:6-16 | defines `parse_grid` as the rows of the trimmed input's lines; `ParseRows` states its meaning |
| Day09.ParseRows | crates/day09/src/main.rs:6-16 | the grid parses exactly when every line does, one row per line |
| Day09.RowText | crates/day09/src/main.rs:11-13 | one digit per height |
| Day09.RowRoundTrip | crates/day09/src/main.rs:11-13 | writing heights as digits and parsing them back gives the heights |
| Day09.IsLowPoint | crates/day09/src/main.rs:28-32 | defines the four short-circuited comparisons of `get_low_points`; `LowPointMeaning` proves what they mean |
| Day09.LowPointMeaning | crates/day09/src/main.rs:29-32 | the four-way comparison holds exactly when the cell is strictly lower than every neighbour inside the grid |
| Day09.RowLowsListed | crates/day09/src/main.rs:27-40 | the low points found in one row are exactly its low points, left to right, each with its height |
| Day09.LowsAboveListed | crates/day09/src/main.rs:26-41 | the low points found above a row are exactly those, in row-major order |
| Day09.LowPointsListed | crates/day09/src/main.rs:24-43 | `get_low_points` lists exactly the low points, each once with its height, in row-major order |
| Day09.GetLowPoints | crates/day09/src/main.rs:24-43 | the nested loops produce `LowPoints` |
| Day09.Risks | crates/day09/src/main.rs:79 | one risk per low point |
| Day09.RiskSumIsSetSum | crates/day09/src/main.rs:74-80 | the sum of the listed risks is the sum of the risk over the set of low points |
| Day09.SeqSumOfDistinct | crates/day09/src/main.rs:79 | a sum over a list without repeats is the sum over its set |
| Day09.SolvePart1 | crates/day09/src/main.rs:74-80 | `solve_part1`: a parse error, else the sum of the low points' risk levels |
| Day09.CellsAreInGrid | crates/day09/src/main.rs:26-27 | the cells are the positions inside the grid |
| Day09.Basin | crates/day09/src/main.rs:45-72 | defines the basin as the cells joined to the start through cells of height below 9; `BasinIsComponent` and `ClosedHoldsBasin` characterise it and `GetBasinSize` counts it |
| Day09.ReachesStart | crates/day09/src/main.rs:46 | an open start reaches itself |
| Day09.ReachesNext | crates/day09/src/main.rs:55-66 | reachability extends to open neighbours |
| Day09.BasinIsComponent | crates/day09/src/main.rs:45-72 | a basin is open cells only, holds its start iff the start is open, and holds every open neighbour of its cells |
| Day09.ClosedHoldsBasin | crates/day09/src/main.rs:45-72 | any set closed under open neighbours that holds the start holds the basin |
| Day09.WalkInside | crates/day09/src/main.rs:55-66 | a walk from inside such a set stays inside |
| Day09.PushNeighbours | crates/day09/src/main.rs:55-66 | the neighbours are pushed in the source's order: left, right, up, down |
| Day09.NeighboursAre | crates/day09/src/main.rs:55-66 | the pushed cells are exactly the in-grid neighbours |
| Day09.GetBasinSize | crates/day09/src/main.rs:45-72 | `get_basin_size` returns the number of cells of the basin |
| Day09.VisitLast | crates/day09/src/main.rs:49-69 | one turn keeps the flood-fill invariant and makes progress |
| Day09.SkipKeepsFilling | crates/day09/src/main.rs:52-54 | a popped cell that is visited or of height 9 is dropped safely |
| Day09.VisitKeepsFilling | crates/day09/src/main.rs:55-68 | a popped open unvisited cell is visited and its neighbours wait in its place |
| Day09.FilledBasin | crates/day09/src/main.rs:71 | when nothing is left to visit, the visited cells are the basin |
| Sums.DistinctCard | crates/day09/src/main.rs:71 | a list without repeats is as long as its set is large |
| Day09.BasinSizes | crates/day09/src/main.rs:85-88 | one size per low point |
| Day09.GetBasinSizes | crates/day09/src/main.rs:85-88 | the loop collects the basin size of each low point in order |
| Day09.LargestThree | crates/day09/src/main.rs:91 | three elements, or all of them when there are fewer |
| Day09.LargestThreeAreLargest | crates/day09/src/main.rs:90-91 | the three taken after sorting are sizes of the list and no size left out exceeds them |
| Day09.SuffixIsLargest | crates/day09/src/main.rs:90-91 | the top of a sorted permutation is the largest |
| Day09.SolvePart2 | crates/day09/src/main.rs:82-92 | `solve_part2`: a parse error, else the product of the three largest basin sizes |
| Day10.OpenerOf | crates/day10/src/main.rs:16-47 | each closer has an opener it must meet |
| Day10.CloserOf | crates/day10/src/main.rs:100-107 | each opener has the closer that meets it |
| Day10.Step | crates/day10/src/main.rs:14-49 | openers are pushed; a closer pops and stops the scan on a mismatch; a closer on an empty stack is skipped; any other character panics |
| Day10.Run | crates/day10/src/main.rs:13-50 | defines the scan of one line from an empty stack; `ScanLine` is proved to compute it |
| Day10.Feed | crates/day10/src/main.rs:13-50 | a stopped scan stays stopped |
| Day10.FeedAppend | crates/day10/src/main.rs:13-50 | scanning is a fold: a line can be scanned in two pieces |
| Day10.CorruptionIsFinal | crates/day10/src/main.rs:19-20 | once corrupted, nothing after the illegal closer matters (the `break`) |
| Day10.Completion | crates/day10/src/main.rs:100 | one closer per opener left on the stack |
| Day10.CompletionCloses | crates/day10/src/main.rs:99-108 | appending the completion closes every open bracket without corrupting the line |
| Day10.StackHoldsOpeners | crates/day10/src/main.rs:15 | the stack holds only openers |
| Day10.SyntaxPoints | crates/day10/src/main.rs:19-43 | an illegal closer scores 3, 57, 1197 or 25137 |
| Day10.CompletionValue | crates/day10/src/main.rs:102-105 | an opener is worth 1 to 4 |
| Day10.CompletionScore | crates/day10/src/main.rs:100-108 | the completion score is zero exactly for an empty stack |
| Day10.CompletionScoreInjective | crates/day10/src/main.rs:100-108 | the score is a base-5 numeral of the opener values, so different stacks never score the same |
| Day10.InputLines | crates/day10/src/main.rs:7-13 | one trimmed line per line of the trimmed input |
| Day10.LinePoints | crates/day10/src/main.rs:14-49 | a line scores exactly when it is corrupted |
| Day10.CorruptedAtCloser | crates/day10/src/main.rs:16-47 | the scan only stops at a closer |
| Day10.ErrorScoreZero | crates/day10/src/main.rs:9-53 | the total is zero exactly when no line is corrupted |
| Day10.LineCompletion | crates/day10/src/main.rs:99-110 | a line has a completion score exactly when it is incomplete |
| Day10.ScanLine | crates/day10/src/main.rs:11-50 | the inner loop computes `Run` of the line |
| Day10.CorruptionOrPanicIsFinal | crates/day10/src/main.rs:48 | a panic, like a corruption, ends the scan |
| Day10.ScoreCompletion | crates/day10/src/main.rs:100-108 | the completion loop walks the stack from the top |
| Day10.CompleteLine | crates/day10/src/main.rs:61-110 | one line of part 2: its completion score, 0 when corrupted or complete |
| Day10.TotalErrorScore | crates/day10/src/main.rs:9-51 | the line loop of part 1 totals the syntax error scores |
| Day10.SolvePart1 | crates/day10/src/main.rs:6-54 | `solve_part1`: the total syntax error score |
| Day10.CompletionScores | crates/day10/src/main.rs:59-111 | the completion scores of the incomplete lines, in order |
| Day10.SolvePart2 | crates/day10/src/main.rs:56-115 | `solve_part2`: the middle of the sorted completion scores |
| Day11.Cells | crates/day11/src/main.rs:46-53 | the cells the scan visits are exactly the 10×10 positions |
| Day11.CellCount | crates/day11/src/main.rs:46-53 | there are 100 of them |
| Day11.SameGrid | crates/day11/src/main.rs:9 | grids agreeing on every cell are equal |
| Day11.OffsetKey | crates/day11/src/main.rs:79-89 | the nine offsets are listed in the source's order |
| Day11.BlockPrefixNext | crates/day11/src/main.rs:90-95 | each offset adds its cell, when in bounds, and no cell twice |
| Day11.BlockList | crates/day11/src/main.rs:77-99 | defines the list `flash` returns: the in-bounds cells of the 3×3 block in the source's offset order; `BlockListIsBlock` proves it lists the block once each |
| Day11.BlockListIsBlock | crates/day11/src/main.rs:77-98 | the list `flash` returns holds each in-bounds cell of the 3×3 block once, the cell itself included |
| Day11.Charged | crates/day11/src/main.rs:46-50 | every cell charged by one |
| Day11.Raised | crates/day11/src/main.rs:93 | the cells of a set charged by one |
| Day11.Zeroed | crates/day11/src/main.rs:67-70 | the cells of a set reset to 0 |
| Day11.CountInAdd | crates/day11/src/main.rs:93 | one more flashed cell charges a block cell once |
| Day11.After | crates/day11/src/main.rs:44-75 | the grid after a step stays 10×10 |
| Day11.AfterAt | crates/day11/src/main.rs:44-75 | after a step a cell is 0 if it flashed, else its charge |
| Day11.NextMonotone | crates/day11/src/main.rs:55-65 | more flashed cells make at least as many cells flash |
| Day11.IterateGrows | crates/day11/src/main.rs:59-65 | the cascade only grows |
| Day11.IterateSettles | crates/day11/src/main.rs:59-65 | each round either settles or adds a cell, so 100 rounds suffice |
| Day11.FlashesFixed | crates/day11/src/main.rs:55-65 | the flashing cells are a fixed point of the cascade |
| Day11.FlashesLeast | crates/day11/src/main.rs:55-65 | they are the least fixed point: any closed set holds them all |
| Day11.IterateBelow | crates/day11/src/main.rs:55-65 | every round stays inside any closed set |
| Day11.AfterInRange | crates/day11/src/main.rs:44-75 | energy stays a digit, and the cells at 0 after a step are exactly those that flashed |
| Day11.RaisedByList | crates/day11/src/main.rs:90-95 | charging each listed cell once charges the block |
| Day11.StartScan | crates/day11/src/main.rs:46-52 | after charging, the scan starts with nothing flashed |
| Day11.SkipCell | crates/day11/src/main.rs:55 | a cell at most 9 or already flashed is passed over |
| Day11.FlashSound | crates/day11/src/main.rs:55-62 | a cell that exceeds 9 while only cells that must flash have flashed must flash |
| Day11.RaisedCharge | crates/day11/src/main.rs:57 | flashing a cell charges exactly the cells around it |
| Day11.BeginCascade | crates/day11/src/main.rs:55-57 | the scan flashes a cell above 9 that has not flashed |
| Day11.SpreadSkip | crates/day11/src/main.rs:60-61 | a popped cell that is flashed or at most 9 is dropped |
| Day11.SpreadFlash | crates/day11/src/main.rs:60-64 | a popped cell above 9 that has not flashed flashes and pushes its block |
| Day11.EndCascade | crates/day11/src/main.rs:67-70 | the cascade is over and the flashed cells are set to 0 |
| Day11.FinishStep | crates/day11/src/main.rs:44-75 | once every cell is scanned, the flashed cells are exactly the cells that must flash and the grid is `After` |
| Day11.Cavern.Energy | crates/day11/src/main.rs:8-10 | the energies the array holds |
| Day11.Cavern.constructor | crates/day11/src/main.rs:16 | a fresh all-zero array |
| Day11.Cavern.WriteRow | crates/day11/src/main.rs:18-21 | writes one line's digits into its row, stopping at the first non-digit |
| Day11.Cavern.Flash | crates/day11/src/main.rs:77-98 | `flash` charges the in-bounds block and lists it in offset order |
| Day11.Cavern.ChargeAll | crates/day11/src/main.rs:46-50 | every cell charged by one |
| Day11.Cavern.ResetFlashed | crates/day11/src/main.rs:67-70 | the cell and every flashed cell set to 0 |
| Day11.Cavern.Spread | crates/day11/src/main.rs:59-65 | the `while` loop keeps the cascade invariant until nothing is left to visit |
| Day11.Cavern.ScanCell | crates/day11/src/main.rs:54-71 | one cell of the scan keeps the scan invariant |
| Day11.Cavern.Step | crates/day11/src/main.rs:44-75 | `step` returns each flashing cell once and leaves the grid as `After` of the old one |
| Day11.CharReading | crates/day11/src/main.rs:19-20 | a non-digit is an error; a digit outside the 10×10 array panics; otherwise the digit |
| Day11.Rows | crates/day11/src/main.rs:17-18 | the trimmed lines of the trimmed input |
| Day11.RowReadings | crates/day11/src/main.rs:18-21 | one reading per character |
| Day11.RowsReadings | crates/day11/src/main.rs:17-22 | one reading per line |
| Day11.Fill | crates/day11/src/main.rs:16-22 | the digits written into the zeroed array |
| Day11.RowMeaning | crates/day11/src/main.rs:18-21 | a line is read exactly when its characters are digits inside the array; an error means a non-digit, a panic a digit out of bounds |
| Day11.ParseRows | crates/day11/src/main.rs:15-24 | defines `from_str` on the trimmed lines: digits written into a zero grid, the first non-digit an error and a digit outside 10×10 a panic; `ParseRowsReads`, `ParseRowsValues` and `ParseRowsFaults` prove its meaning |
| Day11.ParseRowsReads | crates/day11/src/main.rs:15-24 | the input is read exactly when every character is a digit inside the 10×10 array |
| Day11.ParseRowsValues | crates/day11/src/main.rs:15-24 | a cavern read holds the input's digits, and 0 where the input is short |
| Day11.ParseRowsFaults | crates/day11/src/main.rs:15-24 | only a non-digit gives an error and only a digit out of bounds a panic |
| Day11.FromStr | crates/day11/src/main.rs:15-24 | `from_str` succeeds exactly when the input reads, with its energies |
| Day11.Run | crates/day11/src/main.rs:105-107 | the grid after any number of steps stays 10×10 |
| Day11.RunFirst | crates/day11/src/main.rs:105-107 | running `n + 1` steps is one step then `n` |
| Day11.StepFlashesOfRun | crates/day11/src/main.rs:105-107 | the flashes in step `n + 1` are those from the grid after `n` steps |
| Day11.ListedCount | crates/day11/src/main.rs:74 | the list `step` returns has one entry per flashing cell, at most 100 |
| Day11.FlashesWithin | crates/day11/src/main.rs:74 | at most 100 flash, and 100 exactly when every cell does |
| Day11.TotalFlashesBound | crates/day11/src/main.rs:104-107 | at most 100 flashes per step in total |
| Day11.RunInRange | crates/day11/src/main.rs:105-107 | energies stay digits over any number of steps |
| Day11.SynchronisedIsDark | crates/day11/src/main.rs:119 | all 100 flash exactly when the whole cavern is 0 afterwards |
| Day11.SolvePart1 | crates/day11/src/main.rs:101-110 | `solve_part1`: a parse error, else the flashes of the first 100 steps |
| Day11.NoneSynchronisedMeans | crates/day11/src/main.rs:116-122 | no step before `n` has all 100 flash |
| Day11.NoneSynchronisedNext | crates/day11/src/main.rs:116-122 | that extends by one unsynchronised step |
| Day11.FirstSynchronisedIsLeast | crates/day11/src/main.rs:115-124 | the step reported comes no later than any synchronised step |
| Day11.FlashedCount | crates/day11/src/main.rs:118-119 | the length of the list from the grid after `n` steps is the flash count of step `n + 1` |
| Day11.SyncStep | crates/day11/src/main.rs:116-122 | one more step is either the first synchronised one or extends the unsynchronised run |
| Day11.Advance | crates/day11/src/main.rs:117-118 | one `step` from the grid after `n` steps gives the grid after `n + 1` and that step's flash count |
| Day11.SolvePart2 | crates/day11/src/main.rs:112-125 | `solve_part2`: a parse error, else the first step in which all 100 flash |
| Day12.CaveOf | crates/day12/src/main.rs:17-30 | `Cave::from` gives a cave that displays as the name it came from |
| Day12.CaveOfShow | crates/day12/src/main.rs:17-41 | displaying a cave and reading the name back gives the cave again |
| Day12.SplitFirst | crates/day12/src/main.rs:55-56 | the first piece of a split is a prefix of the line |
| Day12.ReadLine | crates/day12/src/main.rs:55-59 | defines one line of `try_from`: the caves of the first two pieces of `split('-')`, an error without a second piece; `ReadLineMeaning` proves it reads exactly when the line holds '-' |
| Day12.ReadLineMeaning | crates/day12/src/main.rs:55-59 | a line gives an edge exactly when it holds a '-', naming the caves on either side of it |
| Day12.ReadEdgesEach | crates/day12/src/main.rs:54-64 | the lines give edges exactly when each does, one per line in order |
| Day12.ConnectionsMeaning | crates/day12/src/main.rs:60-63 | a cave is listed among another's connections exactly when a line joins them, either way round |
| Day12.ConnectionsClosed | crates/day12/src/main.rs:60-63 | every listed cave has its own entry |
| Day12.ParseSystem | crates/day12/src/main.rs:51-67 | `try_from` succeeds exactly when every line gives an edge, and then joins exactly the caves the lines join |
| Day12.ParseSystemNeedsDash | crates/day12/src/main.rs:56-58 | the system is read exactly when every line holds a '-' |
| Day12.ReadEdgesNext | crates/day12/src/main.rs:54-59 | one more line appends its edge |
| Day12.ConnectionsNext | crates/day12/src/main.rs:60-63 | one more edge adds its two entries |
| Day12.Link | crates/day12/src/main.rs:60-61 | defines `entry(from).or_insert_with(Vec::new).push(to)`: `to` appended to the list of `from`, which starts empty; `ConnectionsNext` and `ConnectionsMeaning` prove what the links add up to |
| Day12.Record | crates/day12/src/main.rs:60-63 | the two `or_insert_with` pushes of one line |
| Day12.TryFrom | crates/day12/src/main.rs:51-67 | the loop builds `ParseSystem` |
| Day12.StepDecreases | crates/day12/src/main.rs:84-97 | every recursive call of `get_paths` uses up budget or shortens the big-cave tail, so the recursion ends |
| Day12.GetPaths | crates/day12/src/main.rs:71-106 | `get_paths` fails exactly on the empty path and otherwise enumerates `Paths` |
| Day12.RepeatsNone | crates/day12/src/main.rs:90 | no repeat counted exactly when no small cave is entered twice |
| Day12.RepeatsOnce | crates/day12/src/main.rs:94-97 | at most one repeat counted means at most one repeated entry |
| Day12.RouteBack | crates/day12/src/main.rs:84-97 | a route from the extended path is a route from the path |
| Day12.RouteForward | crates/day12/src/main.rs:84-97 | a route from the path through a cave is a route from the extended path |
| Day12.Paths | crates/day12/src/main.rs:71-106 | defines `get_paths` from a path: every destination of its last cave in order, start skipped, end closing a path, big caves entered, small caves entered once (twice once with the flag); `PathsAreRoutes` proves it lists exactly the routes |
| Day12.PathsRoutes | crates/day12/src/main.rs:71-106 | every path enumerated is a route |
| Day12.ViaRoutes | crates/day12/src/main.rs:76-103 | the paths through each destination are routes |
| Day12.BranchRoutes | crates/day12/src/main.rs:77-101 | the paths through one destination are routes |
| Day12.ViaHas | crates/day12/src/main.rs:76-103 | the paths of every destination are collected |
| Day12.RouteEnumerated | crates/day12/src/main.rs:71-106 | every route is enumerated |
| Day12.PathsAreRoutes | crates/day12/src/main.rs:71-106 | the paths are exactly the routes: from start to end, never re-entering start, small caves once except one when allowed |
| Day12.SmallCavesOnce | crates/day12/src/main.rs:89-100 | without the flag no path enters a small cave twice |
| Day12.OneSmallTwice | crates/day12/src/main.rs:94-97 | with the flag a path enters at most one small cave a second time |
| Day12.Solve | crates/day12/src/main.rs:109-123 | a parse error, else the number of paths from the start cave |
| Day12.SolvePart1 | crates/day12/src/main.rs:109-115 | `solve_part1`: the number of paths visiting small caves once |
| Day12.SolvePart2 | crates/day12/src/main.rs:117-123 | `solve_part2`: the number of paths with one small cave allowed twice |
| Day13.ReadAxis | crates/day13/src/main.rs:30-36 | an axis is read only from the text that names it |
| Day13.ReadAxisText | crates/day13/src/main.rs:30-36 | each axis text reads back as its axis |
| Day13.ReadFold | crates/day13/src/main.rs:42-55 | a fold that is read has an index within the 32-bit signed range |
| Day13.ReadFoldText | crates/day13/src/main.rs:42-55 | a fold written as "fold along a=n" reads back as the same fold |
| Day13.ReadFoldOf | crates/day13/src/main.rs:42-55 | a line of two parts around '=' whose trimmed parts read as an axis and an i32 gives that fold |
| Day13.IntText | crates/day13/src/main.rs:49-53 | the decimal text of an integer is non-empty and made of digits and signs only |
| Day13.TrimInt | crates/day13/src/main.rs:52 | trimming leaves an integer's decimal text unchanged |
| Day13.ReadI32 | crates/day13/src/main.rs:49-53 | defines `str::parse::<i32>`; `ReadInt` proves an `i32`'s decimal text parses back to it |
| Day13.ReadInt | crates/day13/src/main.rs:49-53 | the decimal text of any i32 parses back to it |
| Day13.ReadDot | crates/day13/src/main.rs:70-81 | a dot that is read has both coordinates within the 32-bit signed range |
| Day13.ReadDotText | crates/day13/src/main.rs:70-81 | a dot written as "x,y" reads back as the same dot |
| Day13.ReadDotOf | crates/day13/src/main.rs:70-81 | a line of two parts around ',' whose trimmed parts read as i32 values gives that dot |
| Day13.ReadManual | crates/day13/src/main.rs:148-161 | defines the input split at the first blank line: the dots, read first, then an error without a fold section, then the folds |
| Day13.ReadAllEach | crates/day13/src/main.rs:155-161 | a list of lines reads exactly when every line does, giving one value per line in order |
| Day13.FoldPoint | crates/day13/src/main.rs:115-140 | a dot on the fold line disappears; any other dot ends before the line, keeping its other coordinate, either unmoved or mirrored in the line |
| Day13.Folded | crates/day13/src/main.rs:111-145 | defines the dots after one fold as the images of the dots off the line; `FoldedMeaning` proves its meaning |
| Day13.FoldedMeaning | crates/day13/src/main.rs:111-145 | after a fold a point holds a dot exactly when it lies before the line and it or its mirror image held one |
| Day13.FoldedBefore | crates/day13/src/main.rs:111-145 | every dot left by a fold lies before the fold line |
| Day13.FoldTwice | crates/day13/src/main.rs:111-145 | folding twice along the same line is the same as folding once |
| Day13.FoldedAdd | crates/day13/src/main.rs:114-142 | adding one dot before a fold adds at most its image after it |
| Day13.FoldedFewer | crates/day13/src/main.rs:111-145 | a fold never increases the number of dots |
| Day13.FoldAll | crates/day13/src/main.rs:185-187 | defines the dots after every fold in turn |
| Day13.FoldAllNext | crates/day13/src/main.rs:185-187 | applying the first i+1 folds is applying fold i to the result of the first i |
| Day13.FoldAllFewer | crates/day13/src/main.rs:185-187 | applying all folds never increases the number of dots, and all the dots end before the last fold line |
| Day13.Top | crates/day13/src/main.rs:104-109 | a non-empty set of dots has a largest x and a largest y, each attained by some dot |
| Day13.MaxUnique | crates/day13/src/main.rs:104-109 | the largest x and largest y of a set are unique |
| Day13.OffsetIsProduct | crates/day13/src/main.rs:92-98 | row y of the picture starts after y lines of width plus one newline each |
| Day13.OffsetGrows | crates/day13/src/main.rs:92-98 | a later row starts after the whole of an earlier one |
| Day13.Picture | crates/day13/src/main.rs:88-101 | defines the display: h rows of w cells, each row ended by a newline; `PictureLength` and `PictureAt` prove its layout and marks |
| Day13.PictureLength | crates/day13/src/main.rs:88-101 | the picture has h lines of w characters, each followed by a newline |
| Day13.PictureAt | crates/day13/src/main.rs:88-101 | the character at row y and column x is '#' when a dot is there, '.' otherwise, and a newline after the last column |
| Day13.Paper.constructor | crates/day13/src/main.rs:66-85 | the new paper holds exactly the dots that were read |
| Day13.Paper.Max | crates/day13/src/main.rs:104-109 | returns the largest x and the largest y of the dots, for a paper with at least one dot |
| Day13.Paper.FoldAlong | crates/day13/src/main.rs:111-145 | the paper's dots become exactly the images of the old dots under the fold |
| Day13.Paper.DotCount | crates/day13/src/main.rs:165 | counting the stored values that are true counts every dot |
| Day13.Paper.Render | crates/day13/src/main.rs:88-101 | the display is the picture of the dots from row 0 to the largest y and column 0 to the largest x |
| Day13.SolvePart1 | crates/day13/src/main.rs:148-166 | succeeds exactly when the manual reads, giving the number of dots left after the first fold |
| Day13.SolvePart2 | crates/day13/src/main.rs:168-193 | succeeds exactly when the manual reads, giving a newline followed by the picture of the dots left after every fold |
| Day14.ReadRule | crates/day14/src/main.rs:17-30 | a rule line reads only when it holds the " -> " separator |
| Day14.ReadRuleText | crates/day14/src/main.rs:17-30 | any rule written as "ab -> c" reads back as that rule, whatever its characters |
| Day14.RuleMap | crates/day14/src/main.rs:11-31 | the rule map has exactly the pairs of the rules as keys |
| Day14.RuleMapLast | crates/day14/src/main.rs:30 | a pair maps to the character of the last rule that names it |
| Day14.ReadManual | crates/day14/src/main.rs:8-31 | a manual reads only when the input has a rules section after a blank line, and its template is the text before that line |
| Day14.ReadManualRules | crates/day14/src/main.rs:12-31 | given a rules section, the manual reads exactly when every rule line reads |
| Day14.ParseManual | crates/day14/src/main.rs:8-31 | the rule loop succeeds exactly when the manual reads, giving the same template and rule map |
| Day14.InsertionsMatched | crates/day14/src/main.rs:41-46 | every insertion is that of a pair with a rule, carrying its rule's character, and insertions come in the order of the pairs |
| Day14.InsertionsComplete | crates/day14/src/main.rs:41-46 | every pair with a rule has its insertion |
| Day14.GrownLength | crates/day14/src/main.rs:40-49 | a polymer grown over its first k characters has k characters plus one per insertion, and ends with the k-th character |
| Day14.GrownPrefix | crates/day14/src/main.rs:40-49 | growing fewer characters gives a prefix of the polymer and of the insertions |
| Day14.Step | crates/day14/src/main.rs:40-49 | defines one part 1 step as the polymer grown through all its pairs; `StepKeeps`, `StepBetween` and `StepLength` prove its meaning |
| Day14.StepKeeps | crates/day14/src/main.rs:40-49 | in a step every character of the polymer stays, in order, the first staying first and the last staying last |
| Day14.StepBetween | crates/day14/src/main.rs:40-49 | after a step exactly the rule's character, or nothing when the pair has no rule, comes between two neighbours |
| Day14.StepLength | crates/day14/src/main.rs:40-49 | a step adds one character for each pair with a rule |
| Day14.StepCounts | crates/day14/src/main.rs:40-49 | the characters after a step are those before it plus those inserted |
| Day14.GrownCounts | crates/day14/src/main.rs:40-49 | growing k characters adds exactly the characters inserted among them |
| Day14.SkipUnmatched | crates/day14/src/main.rs:41-46 | from any position, skipping pairs without a rule leads to the next matched pair or to the end, without changing what is grown |
| Day14.CollectInsertions | crates/day14/src/main.rs:40-46 | the first loop collects exactly the insertions of the step, and the histogram gains their characters |
| Day14.CollectPair | crates/day14/src/main.rs:42-45 | one turn of the first loop extends the insertions and the histogram by the pair at i, if it has a rule |
| Day14.InsertNext | crates/day14/src/main.rs:47-49 | inserting the next insertion at its index plus the number inserted before it extends the polymer grown so far |
| Day14.ApplyInsertions | crates/day14/src/main.rs:47-49 | the second loop, shifting each index by the number inserted before it, produces exactly the polymer after the step |
| Day14.InsertStep | crates/day14/src/main.rs:39-50 | one step of part 1 gives the grown polymer and adds its insertions to the histogram |
| Day14.Grow | crates/day14/src/main.rs:39-50 | defines the polymer after n steps as n single steps in turn |
| Day14.GrowEmpty | crates/day14/src/main.rs:38-50 | growth leaves a polymer empty exactly when the template was empty |
| Day14.Tally | crates/day14/src/main.rs:33-36 | the histogram of the template counts each of its characters |
| Day14.MostCommon | crates/day14/src/main.rs:52-55 | a most common character, or none exactly when there are no counts |
| Day14.LeastCommon | crates/day14/src/main.rs:56-59 | a least common character, or none exactly when there are no counts |
| Day14.SpreadUnique | crates/day14/src/main.rs:52-61 | the difference between the largest and smallest count does not depend on which characters are picked |
| Day14.Spread | crates/day14/src/main.rs:52-61 | the answer is the largest count less the smallest, and an error exactly when there are no counts |
| Day14.SolvePart1 | crates/day14/src/main.rs:7-62 | succeeds exactly when the manual reads and the template is non-empty, giving the spread of the character counts of the polymer after ten steps |
| Day14.PairBag | crates/day14/src/main.rs:91-94 | defines the pair counts of `windows(2)`: each adjacent pair counted once per occurrence; `PairBagSnoc`, `CountPairs` and `CharsFromPairs` prove its meaning |
| Day14.PairBagSnoc | crates/day14/src/main.rs:92-94 | one more character adds the pair it closes |
| Day14.CountPairs | crates/day14/src/main.rs:90-94 | the pair counting loop counts every window of two characters of the template |
| Day14.SumPick | crates/day14/src/main.rs:98-103 | summing over the pair counts does not depend on which pair is taken first |
| Day14.SumKey | crates/day14/src/main.rs:98-103 | all copies of one pair contribute their image that many times |
| Day14.PairStep | crates/day14/src/main.rs:96-105 | defines one part 2 step as the sum of every counted pair's children; `PairStepOnce` is proved to compute it |
| Day14.Children | crates/day14/src/main.rs:99-102 | a pair with a rule gives two new pairs, one without a rule gives none |
| Day14.DepositAdds | crates/day14/src/main.rs:99-102 | handling one pair count adds the pair's children that many times |
| Day14.PairTurn | crates/day14/src/main.rs:98-103 | one turn of the step loop keeps the new counts plus the step of what is left equal to the step of all counts |
| Day14.AddChildren | crates/day14/src/main.rs:99-102 | the loop body adds the count to both halves of a pair with a rule, and nothing otherwise |
| Day14.PairStepOnce | crates/day14/src/main.rs:96-105 | one step of part 2 gives the children of every pair, each as many times as the pair was counted |
| Day14.FirstTurn | crates/day14/src/main.rs:108-110 | one turn of the character counting loop keeps counted plus remaining equal to the total |
| Day14.AddFirst | crates/day14/src/main.rs:109 | a pair adds its count to its first character |
| Day14.FirstCounts | crates/day14/src/main.rs:107-110 | the character counting loop credits every pair count to the pair's first character |
| Day14.CharCounts | crates/day14/src/main.rs:107-113 | the character counts are the first characters of the pairs plus the last character, and an error exactly when the polymer is empty |
| Day14.CharsFromPairs | crates/day14/src/main.rs:107-113 | the first characters of a polymer's pairs, with its last character, are exactly its characters |
| Day14.PairStepDoubles | crates/day14/src/main.rs:96-105 | a step of part 2 doubles the number of pairs when every pair has a rule |
| Day14.PairStepNone | crates/day14/src/main.rs:99-103 | a step of part 2 leaves no pairs when no pair has a rule |
| Day14.StepSnoc | crates/day14/src/main.rs:40-49 | one more character grows the polymer by the rule's character, if any, and itself |
| Day14.PairsFollowStep | crates/day14/src/main.rs:96-105 | when every pair of a polymer has a rule, the part 2 step of its pairs gives the pairs of the part 1 step |
| Day14.StepWithin | crates/day14/src/main.rs:40-49 | over an alphabet whose pairs all have rules inside it, every pair has a rule and a step stays in the alphabet |
| Day14.PairStepsTrack | crates/day14/src/main.rs:96-105 | over such an alphabet, n steps of part 2 give the pairs of the polymer after n steps of part 1 |
| Day14.GrowLast | crates/day14/src/main.rs:111-113 | growth keeps the last character of the template |
| Day14.PairCounts | crates/day14/src/main.rs:107-113 | defines part 2's character counts: every pair credits its first character, and the last character adds one; `CountsAgree` ties them to part 1 |
| Day14.CountsAgree | crates/day14/src/main.rs:64-125 | over such an alphabet, part 2's character counts equal those of part 1's polymer |
| Day14.UncoveredDiverges | crates/day14/src/main.rs:99-103 | without a rule for some pair, part 2's counts differ from part 1's: "ABA" with no rules leaves no pairs, so part 2 counts only the last 'A' where the polymer has three characters |
| Day14.SolvePart2 | crates/day14/src/main.rs:64-125 | succeeds exactly when the manual reads and the template is non-empty, giving the spread of part 2's counts after forty steps, which over such an alphabet is the spread of the polymer itself |
| Day15.ManhattanDistance | crates/day15/src/main.rs:54-56 | defines the Manhattan distance; `ManhattanDistanceProperties` proves its metric laws |
| Day15.ManhattanDistanceProperties | crates/day15/src/main.rs:53-57 | the Manhattan distance is symmetric, zero exactly between equal points, and obeys the triangle inequality |
| Day15.ToOpen | crates/day15/src/main.rs:34-42 | defines `From<Point> for OpenPoint`: the same cell with f-score 0; `PointConversionRoundTrip` proves the conversions round-trip |
| Day15.ToPoint | crates/day15/src/main.rs:44-51 | defines `From<OpenPoint> for Point`: the f-score dropped; `PointConversionRoundTrip` proves the conversions round-trip |
| Day15.PointConversionRoundTrip | crates/day15/src/main.rs:34-51 | converting a point to an open point and back gives the point; the other way round only the f-score is reset to 0 |
| Day15.Compare | crates/day15/src/main.rs:22-27 | defines `Ord for OpenPoint`: the f-scores compared in reverse; `CompareIsReversedOrder` and `HeapTopHasMinimalFScore` prove the heap's top has the least f-score |
| Day15.CompareIsReversedOrder | crates/day15/src/main.rs:22-32 | an open point compares greater exactly when its f-score is smaller, and the order is antisymmetric and transitive |
| Day15.HeapTopHasMinimalFScore | crates/day15/src/main.rs:22-26 | a greatest entry of the heap under this order has the smallest f-score of all entries |
| Day15.MinIndex | crates/day15/src/main.rs:91 | a non-empty open list has a greatest entry, so popping it always succeeds |
| Day15.Destination | crates/day15/src/main.rs:73-76 | defines the destination: x from the width of row 0, y from the number of rows; `EmptyOpenReachesDestination` and `PathTo` prove it is reached and read back from |
| Day15.InCells | crates/day15/src/main.rs:72-76 | a point is a cell of the grid exactly when it lies within its rows and columns |
| Day15.Neighbours | crates/day15/src/main.rs:97-121 | defines the neighbours pushed, as written with x bounded by the number of rows and y by the length of row 0; `NeighboursOfSquareGrid` and `NonSquareGridEscapes` prove what they are |
| Day15.NeighboursOfSquareGrid | crates/day15/src/main.rs:97-121 | on a square grid the generated neighbours are exactly the 4-adjacent cells of the grid, never the cell itself |
| Day15.NonSquareGridEscapes | crates/day15/src/main.rs:104-121 | on a grid wider than it is tall the bounds compare x with the height and y with the width, so a cell outside the grid is generated |
| Day15.OpenCells | crates/day15/src/main.rs:134-138 | the cells of the open list, entry by entry |
| Day15.PotentialDecreases | crates/day15/src/main.rs:128-130 | lowering a g-score lowers the sum of all g-scores |
| Day15.Relax | crates/day15/src/main.rs:123-146 | the body of the neighbour loop computes the relaxed search state |
| Day15.Relaxed | crates/day15/src/main.rs:123-146 | defines one neighbour's relaxation: on a strictly better g-score the link, g-score and f-score are rewritten and the cell pushed unless already open; `RelaxedMonotone` and the `RelaxPreserves` lemmas prove what it keeps |
| Day15.RelaxedMonotone | crates/day15/src/main.rs:123-146 | relaxing scores the neighbour, never raises a g-score, changes only the neighbour, and redirects its link to the current cell only when its g-score drops |
| Day15.RelaxPreservesLinks | crates/day15/src/main.rs:128-130 | with positive costs, every link keeps pointing to an adjacent cell whose g-score is lower by the cell's cost |
| Day15.RelaxPreservesOpen | crates/day15/src/main.rs:134-144 | the open list keeps one entry per scored cell that is not yet expanded, and every scored cell stays open or expanded |
| Day15.RelaxPreservesClosed | crates/day15/src/main.rs:123-146 | every neighbour of an expanded cell stays scored, and the neighbour becomes scored |
| Day15.RelaxPreservesFScores | crates/day15/src/main.rs:131-133 | every f-score stays the cell's g-score plus its distance to the destination |
| Day15.RelaxProgress | crates/day15/src/main.rs:123-146 | each relaxation scores a new cell, lowers the sum of g-scores, or leaves the state unchanged |
| Day15.Without | crates/day15/src/main.rs:91 | defines `BinaryHeap::pop` on a chosen top entry as its removal from the open list; `WithoutCells` proves exactly that entry's cell goes |
| Day15.WithoutCells | crates/day15/src/main.rs:91 | removing entry i removes exactly its cell from the open list |
| Day15.PopKeepsTracked | crates/day15/src/main.rs:91 | the popped cell is scored and has no entry left, and the rest still hold one entry per cell |
| Day15.PopKeepsCovered | crates/day15/src/main.rs:91 | after a pop, with the popped cell counted as expanded, every scored cell is still open or expanded |
| Day15.CloseExpanded | crates/day15/src/main.rs:123-146 | once every neighbour of the expanded cell is scored, every expanded cell has all its neighbours scored |
| Day15.ReconstructPath | crates/day15/src/main.rs:59-70 | the path starts at the given cell, each step follows the link of the previous one, the last links to the start, the start itself is never included, and the ranks strictly decrease along it |
| Day15.LinksDecrease | crates/day15/src/main.rs:59-70 | with positive costs, following a link strictly lowers the g-score, so reading the links back stops |
| Day15.ReadBackIsEnteredPath | crates/day15/src/main.rs:59-70 | a chain read back from the destination is a walk of adjacent grid cells from the destination to a neighbour of the start |
| Day15.ClosedSetCoversGrid | crates/day15/src/main.rs:90-147 | a set holding the start and every neighbour of each of its cells holds every cell of a square grid |
| Day15.EmptyOpenReachesDestination | crates/day15/src/main.rs:90-149 | if the open list runs dry, the destination has been expanded, so on a square grid the "no path found" error cannot be reached |
| Day15.RelaxKeepsExpanding | crates/day15/src/main.rs:123-146 | one relaxation keeps the search invariant, keeps every scored cell scored, and makes progress or changes nothing |
| Day15.RelaxNeighbours | crates/day15/src/main.rs:97-146 | the neighbour loop restores the search invariant and scores more cells, lowers the g-scores, or changes nothing |
| Day15.NoWorseStep | crates/day15/src/main.rs:123-146 | progress through one relaxation chains onto progress so far |
| Day15.UnscoredShrinks | crates/day15/src/main.rs:128-130 | scoring a new cell of the grid shrinks the set of unscored cells |
| Day15.PopBest | crates/day15/src/main.rs:91 | pops an entry with the smallest f-score, removing it from the open list and leaving the rest of the state unchanged |
| Day15.PathTo | crates/day15/src/main.rs:92-95 | once the destination is scored, the path read back from it is a walk of adjacent cells from the destination to a neighbour of the start |
| Day15.FindShortestPath | crates/day15/src/main.rs:72-150 | on a square grid of at least two cells a side with positive costs, the search always ends with such a path |
| Day15.PathCostAtLeastDistance | crates/day15/src/main.rs:164-168 | a returned path costs at least the distance between the corners |
| Day15.PathCostAtLeastLength | crates/day15/src/main.rs:165-168 | with positive costs a path costs at least its number of cells |
| Day15.LengthAtLeastDistance | crates/day15/src/main.rs:59-70 | a walk of adjacent cells ending next to the start has at least as many cells as its first cell's distance from the start |
| Day15.ParseGrid | crates/day15/src/main.rs:153-162 | a parsed grid has one row per line of the trimmed input |
| Day15.ParseRows | crates/day15/src/main.rs:156-162 | the rows parse exactly when every line does, one row per line in order |
| Day15.ParseRow | crates/day15/src/main.rs:157-160 | a line parses exactly when every character is a decimal digit, giving the digits' values in order |
| Day15.ReadGrid | crates/day15/src/main.rs:153-162 | the parsing loops stop with an error at the first character that is not a digit and otherwise give the parsed grid |
| Day15.ParsedCostsAreDigits | crates/day15/src/main.rs:159 | every parsed cost is between 0 and 9 |
| Day15.SolvePart1 | crates/day15/src/main.rs:152-169 | succeeds exactly when the grid parses, giving the cost of a path from the start to the destination, at least twice the side less one |
| Day15.SolvePart2 | crates/day15/src/main.rs:189-208 | succeeds exactly when the grid parses, giving the cost of a path across the grid tiled five times a side |
| Day15.WrapIsCyclicUpTo18 | crates/day15/src/main.rs:176-180 | the wrap-around above 9 agrees with cycling through 1..9 up to 18 and differs from it at 19 |
| Day15.ExpandedCost | crates/day15/src/main.rs:175-180 | defines a tiled cell's cost as its base cost raised by the tile distance and wrapped; `ExpandedCostInRange` proves it stays in 1..9 |
| Day15.ExpandGrid | crates/day15/src/main.rs:171-187 | the tiled grid has n times the rows, and each cell is the base cost of its tile position raised by the tile distance and wrapped |
| Day15.ExpandOnceIsIdentity | crates/day15/src/main.rs:171-187 | tiling a rectangular grid of digit costs once gives it back |
| Day15.ExpandedCostInRange | crates/day15/src/main.rs:176-180 | with base costs 1..9 and at most five tiles a side, every tiled cost stays in 1..9 |
| Day15.WrapInRange | crates/day15/src/main.rs:176-180 | a cost of 1..9 raised by at most eight wraps back into 1..9 |
| Day15.TileIndexBound | crates/day15/src/main.rs:176-177 | the tile index of a cell is below the number of tiles |
| Day15.ExpansionUnique | crates/day15/src/main.rs:171-187 | the tiling of a grid is a single grid |
| Day15.ExpandedSquare | crates/day15/src/main.rs:171-201 | tiling a square grid of positive digit costs at most five times a side gives a square grid of positive costs |
| Text.TrimStart | crates/day10/src/main.rs:13 | only leading whitespace is removed, and what remains does not start with whitespace |
| Text.TrimEnd | crates/day10/src/main.rs:13 | only trailing whitespace is removed, and what remains does not end with whitespace |
| Text.Trim | crates/day10/src/main.rs:7 | no whitespace remains at either end, and what remains lies inside the string with leading whitespace removed |
| Text.IndexFromFirst | crates/day08/src/main.rs:12 | the search for a separator finds its first occurrence from the starting position |
| Text.Split | crates/day05/src/main.rs:36 | defines `str::split` with a non-empty pattern: the pieces between the non-overlapping occurrences from the left, at least one; `JoinSplit`, `SplitAt` and `SplitPiecesAvoidSep` prove its meaning |
| Text.Lines | crates/day01/src/main.rs:7 | defines `str::lines`: the pieces between '\n', without a final empty piece, a '\r' dropped only right before a '\n'; no lines from an empty string |
| Text.SplitAt | crates/day08/src/main.rs:12 | splitting cuts the string at the first occurrence of the separator and splits the rest |
| Text.JoinSplit | crates/day08/src/main.rs:12 | joining the pieces of a split with the separator gives the string back |
| Text.SplitTwo | crates/day13/src/main.rs:70 | two pieces free of a one-character separator, joined by it, split back into the two pieces |
| Text.SplitPiecesAvoidSep | crates/day13/src/main.rs:43 | no piece of a split contains the separator |
| Text.SplitWhitespace | crates/day04/src/main.rs:28 | defines `str::split_whitespace`: the maximal runs of non-whitespace; `SplitWhitespaceWords` proves each is a word |
| Text.SplitWhitespaceWords | crates/day04/src/main.rs:28 | every piece `split_whitespace` yields is a non-empty run of non-whitespace |
| Text.ToDigit | crates/day15/src/main.rs:159 | a character is a digit of the radix exactly when it is one of the radix's decimal digits, with that value |
| Text.DigitsValueDefined | crates/day03/src/main.rs:70 | a string has a value in a radix exactly when it is non-empty and every character is a digit of the radix |
| Text.ParseIntRadix | crates/day03/src/main.rs:70 | a parsed value lies in the integer type's range |
| Text.ParseInt | crates/day01/src/main.rs:12 | a parsed value lies in the integer type's range |
| Text.DigitsValueOfDecimal | crates/day01/src/main.rs:12 | the decimal text of a natural number has that number as its value |
| Text.ParseDigits | crates/day07/src/main.rs:11 | an unsigned string of digits parses to its value when the value is in range |
| Text.ParseAll | crates/day07/src/main.rs:7-13 | a list of words parses exactly when each word does, giving their values in order |
| Text.ByteLength | crates/day03/src/main.rs:7 | defines `str::len` as the sum of the characters' UTF-8 widths; `AsciiByteLength` and `CharsWithinBytes` prove its relation to the character count |
| Text.Utf8Width | crates/day03/src/main.rs:7 | a character takes one to four bytes in UTF-8 |
| Text.AsciiByteLength | crates/day08/src/main.rs:46 | an ASCII string's byte length (`len()`) is its character count |
| Text.CharsWithinBytes | crates/day03/src/main.rs:7 | a string has at least as many bytes as characters, and exactly as many iff it is ASCII |
| Wrappers.OkOr | crates/day09/src/main.rs:12 | `ok_or` gives `Ok` exactly for `Some`, with its value |
| Wrappers.Collect | crates/day09/src/main.rs:13-15 | `collect` into a `Result` over readings that can also panic: the first one that is not a value decides, and a success has one value per reading |
| Wrappers.CollectReadsEach | crates/day05/src/main.rs:35-53 | the readings collect exactly when each is a value, and then the values are theirs in order |
| Wrappers.CollectFaults | crates/day05/src/main.rs:35-53 | an error or a panic from `collect` comes from some reading of that kind |
| Wrappers.CollectStops | crates/day05/src/main.rs:35-53 | when every reading before `i` is a value and reading `i` is not, the collect fails exactly as reading `i` does: the first reading that is not a value decides |
| Sorting.Insert | crates/day10/src/main.rs:113 | inserting keeps every element and adds the new one |
| Sorting.InsertSorted | crates/day10/src/main.rs:113 | inserting into a sorted sequence keeps it sorted |
| Sorting.Sort | crates/day10/src/main.rs:113 | the result is sorted and holds the same elements with the same multiplicities |
| Sorting.SortedUnique | crates/day09/src/main.rs:90 | two sorted arrangements of the same elements are equal, so the stable and unstable sorts agree |

## Left out

- `main`, the `instrument!` timing macro and the embedded puzzle inputs (`include_str!`) are I/O. The model takes the input as a string parameter.
- The sample input files that each crate's unit tests read are not part of this model. For days 1 and 2 the sample values are written out in Dafny and the expected answers are proved for them. For day 7 only the fuel at the known best center is proved (37 at 2, 168 at 5), not that `Solve` returns it. The other days state no sample answers.
- Error messages built with `anyhow!` are dropped: an error is a bare `Err`.
- Integer widths: parsing checks the source's ranges (`i32`, `u8`, `u32`). Arithmetic after parsing is on unbounded integers, so overflow is not modelled. This covers sums, products, fuel totals, the `u64` fish counters, the `usize` pair counts and the `i32` casts of path costs.
- Panics are preconditions on the methods that would panic, directly or as a requirement that no reading is `Reading.Panics`; the source would abort on those inputs instead:
  - Day01: a part 2 line that is not an `i32` when there is a window.
  - Day02: an unknown command word, or a line without a space.
  - Day03: empty input (the first line is read in `get_column_sums` and in part 2's loop bound, so `ColumnsFit` and `Uniform` ask for at least one line); a '1' at a character position beyond the first line's byte length; in part 2, a list the filter emptied before both ratings were found, or a column past the last character when the first line has non-ASCII characters.
  - These panics are carried as `Reading.Panics` by the parsers:
    - Day04: a board with more than 5 lines or more than 5 numbers in a line, where `board[y][x]` is out of bounds (crates/day04/src/main.rs:29); `FillRow` returns the panic.
    - Day05: a line without " -> " or a point without ',', where `next().unwrap()` finds no piece (crates/day05/src/main.rs:37-44); `ReadPoint` and `ReadVent` return the panic.
    - Day11: a digit outside the 10×10 grid, where `grid[y][x]` is out of bounds (crates/day11/src/main.rs:20); `CharReading` returns the panic.
    - Day14: a rule whose left side has fewer than two characters, where `pair[1]` is out of bounds (crates/day14/src/main.rs:30); `ReadRule` returns the panic.
  - Day06: a timer above 8 in part 2.
  - Day07: an empty position list.
  - Day08: a line without " | "; in the deduction, an empty set difference where `.difference(..).next().unwrap()` takes its first element (crates/day08/src/main.rs:92-93); an output pattern matching none of the ten digits, `panic!("Invalid output digit")` (crates/day08/src/main.rs:143). `Deduce` and `ReadDigits` give `None` in these cases, `LineValue` turns that into `Reading.Panics`, and part 2 requires that no line panics.
  - Day10: a non-bracket character; no incomplete line in part 2.
  - Day13: no fold in part 1; no dot left in part 2.
  - Day15: empty input, where `grid[0]` is out of bounds (crates/day15/src/main.rs:74), which `Square` excludes by asking for at least one row; a 1×1 grid (`reconstruct_path` looks up a link the start does not have).
- Some preconditions restrict the methods to puzzle-shaped input, which the source accepts more widely:
  - Day03 part 2 requires lines of equal length (`Uniform`). The source does not always panic on uneven lines: "01\n1" gives Ok(1), as column 0 leaves one line in each list.
  - Day09 requires rows of equal length (`Rectangular`). The source panics on some ragged grids but not on all: ["99", "99", "9"] gives a result, because a failed comparison skips the lookup into the short row.
  - Day15 requires square grids (`Square`) and risks of at least 1 (`PositiveCosts`). On a non-square grid the swapped bounds of the neighbour generation can index outside the grid, but rows after the first that are longer than the grid is tall are never read there, and the model excludes them too. A risk of 0 does not make the source fail: relaxation is strict, so the links stay acyclic and the path read-back ends; the model uses positive risks for its termination argument.
- Non-termination is a precondition:
  - Day11 part 2 requires that some step flashes all 100 octopuses.
  - Day12 requires that no two big caves are adjacent. The source recurses forever when such a pair is reachable from the start; the model also excludes unreachable pairs, where the source terminates ("start-end\nA-B" gives 1).
- Hash map iteration order is not modelled:
  - Day08 takes the element that `HashSet` iteration would yield first as a `pick` parameter.
  - Day13 and Day14 prove their results for every order.
  - Day15 pops any entry of least f-score; the `BinaryHeap` tie-break is not modelled.
- Day03 compares bit counts with `f32` arithmetic. The model uses the exact comparison `2 * count >= len`, which the float comparison agrees with while the counts are exactly representable as `f32` (below 2^24).
- Day05 `print_ocean_floor` and the `Display` implementation of Day11's cavern print debugging output and are not modelled.
- `char::is_uppercase` in Day12 is modelled for ASCII letters only.
- Day14.SolvePart2: agrees with part 1 only when every pair that can arise has a rule (`Covers`). Otherwise the source's part 2 drops the pairs without a rule, which `UncoveredDiverges` exhibits. The contract states the pair-count answer exactly and the part 1 agreement only under that condition.
- Day15.FindShortestPath: proved to return a path from the destination to a neighbour of the start. It is not proved to be of least risk, because an open entry keeps the f-score it was pushed with after its g-score drops, so the pop order does not guarantee it.
- Day15.SolvePart2: tiling uses the source's wrap (`v % 10 + 1` above 9). It is proved to stay in 1..9 only for base costs 1..9 and at most five tiles a side.
