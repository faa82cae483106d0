# Advent of Code 2018 solutions, modelled in Dafny

The repository holds one Rust crate per Advent of Code 2018 puzzle. Each
crate reads its puzzle input, runs a small algorithm over it and prints the
answers. This project models those algorithms, one Dafny module per crate,
and proves what each one computes. The input reading and the printing are
not modelled.

| file | module | puzzle |
|---|---|---|
| `common.dfy` | `Wrappers`, `Seqs`, `Text`, `Arith`, `Orders`, `Decimal` | shared helpers: `Option`, sums over sequences, `split` and `trim`, decimal parsing, and row-major index arithmetic |
| `aoc01_frequency.dfy` | `FrequencyDrift` | day 1: the frequency total and the first repeated frequency |
| `aoc02_box_ids.dfy` | `BoxIds` | day 2: letter frequencies, the checksum and the pair of ids that differ in one position |
| `aoc03_fabric.dfy` | `FabricClaims` | day 3: claim overlap counting and the intact claim |
| `aoc05_polymer.dfy` | `Polymer` | day 5: stack-based polymer reduction and the shortest reduction without one unit type |
| `aoc06_areas.dfy` | `Areas` | day 6: a flood fill from many sources, one generation at a time, with contention marking |
| `aoc07_steps.dfy` | `StepOrder` | day 7: topological order that always takes the alphabetically first ready step |
| `aoc08_tree.dfy` | `LicenceTree` | day 8: the tree parser and the two tree folds |
| `aoc09_marbles.dfy` | `MarbleGame` | day 9: the marble circle and the game loop |
| `aoc10_stars.dfy` | `Stars` | day 10: moving points and the bounding-box test |
| `aoc11_power.dfy` | `PowerGrid` | day 11: the power formula, the summed-area table and the best square |
| `aoc12_plants.dfy` | `Plants` | day 12: the one-dimensional cellular automaton |
| `aoc13_carts.dfy` | `Tracks` | day 13: the track and cart parser |
| `aoc14_recipes.dfy` | `Recipes` | day 14: digit decomposition and the recipe scoreboard |
| `aoc15_cave.dfy`, `aoc15_warriors.dfy`, `aoc15_movement.dfy` | `Cave`, `Bandits`, `Movement` | day 15: the cave map, the warriors and their movement |
| `aoc16_ops.dfy`, `aoc16_device.dfy` | `Ops`, `Device` | day 16: the sixteen register operations, sample matching, opcode resolution and program execution |
| `aoc17_clay.dfy` | `Reservoir` | day 17: the clay-vein parser and the clay map |

Each module keeps the shape of its crate's code. State that the Rust code
updates in place is modelled that way: the marble circle, the day 6 and
day 11 grids, the day 10 points and the day 15 map are classes or arrays,
and their loops are methods with invariants. Each such method is proved
against a specification function. Code written as expressions and
iterator pipelines is modelled as functions, with lemmas about them.

Machine integers (`i32`, `usize`, `u8`) are modelled as unbounded
integers. A `panic!`, an `unwrap` on `None` or an out-of-range index is
modelled in one of two ways. Where the crash depends on the data, the
result is `None` or a `Panicked` outcome. Where it depends only on the
caller, the operation has a precondition.

Day 15 is a case where the code does less than the full puzzle. The
puzzle describes combat, hit points and the search for an attack power.
The crate implements only movement: the attack at
`aoc_15/src/main.rs:268-269` is commented out. The model follows the
code, so it has no combat.

## Model

| member | source | states |
|---|---|---|
| Text.Split | aoc_10/src/main.rs:28 | `split(',')` gives at least one field and no field holds the separator |
| Text.SplitJoin | aoc_10/src/main.rs:28 | splitting fields joined by the separator gives the fields back |
| Text.Trim | aoc_10/src/main.rs:29 | `trim` leaves no white space (any character with Unicode's `White_Space` property) at either end and never lengthens the text |
| Text.TrimCut | aoc_10/src/main.rs:29 | what `trim` keeps is one stretch of the text, with only white space cut before and after it |
| Text.TrimPadded | aoc_10/src/main.rs:29 | a word padded with leading white space is trimmed back to the word |
| Decimal.ParseShow | aoc_17/src/main.rs:69-70 | a number written in decimal parses back to itself, as unsigned and as signed |
| Decimal.ParseShowInt | aoc_10/src/main.rs:30 | a signed number written in decimal, with `-` when negative, parses back to itself |
| FrequencyDrift.FreqPrefix | aoc_1/src/main.rs:16-24 | within the first pass the running frequency after `i` changes is the sum of the first `i` changes; after a whole pass it is the total printed as result 1 |
| FrequencyDrift.FreqPeriod | aoc_1/src/main.rs:21-23 | each further pass of the cycled input shifts the frequency by the total of the changes |
| FrequencyDrift.ZeroTotalRepeats | aoc_1/src/main.rs:21-25 | when the changes cancel out, frequency 0 comes back after one pass, so the search stops |
| FrequencyDrift.FirstRepeat | aoc_1/src/main.rs:18-25 | the loop ends at a frequency reached before, `i` changes in, with all frequencies before it distinct (`seen` holds exactly those); an empty input is reported; a fuel bound stops it otherwise, with all frequencies so far distinct |
| BoxIds.GetFreq | aoc_2/src/main.rs:12-19 | the map has a key exactly for each character of the id, holding its number of occurrences (at least 1), and the counts add up to the id's length |
| BoxIds.HasExactly2Or3 | aoc_2/src/main.rs:21-24 | the first flag holds iff some character occurs exactly twice, the second iff some character occurs exactly three times |
| BoxIds.TallyCounts | aoc_2/src/main.rs:28-31 | the fold counts exactly the ids with a pair and the ids with a triple |
| BoxIds.Checksum | aoc_2/src/main.rs:28-33 | the checksum is the number of ids with a pair times the number with a triple |
| BoxIds.DiffSelf | aoc_2/src/main.rs:36-37 | an id compared with itself (the inner loop starts at `i`) differs in no position, so it never matches |
| BoxIds.CommonLength | aoc_2/src/main.rs:37-38 | agreeing and differing zipped positions make up the shorter id's length, so for a one-difference pair the printed string is one shorter |
| BoxIds.CommonFromBoth | aoc_2/src/main.rs:38 | every printed character is the character both ids hold at one zipped position |
| BoxIds.FindOneDiff | aoc_2/src/main.rs:35-42 | the pair found differs in exactly one zipped position, has the common string one shorter, and no pair visited before it in loop order matches; `None` only when no pair matches |
| FabricClaims.CoverCountPositive | aoc_3/src/main.rs:46-52 | a square inch is counted at least once iff some claim covers it |
| FabricClaims.BuildFabric | aoc_3/src/main.rs:44-52 | the keys of `fabric` are exactly the square inches some claim covers, and each holds the number of claims covering it, at least 1 |
| FabricClaims.FabricPartition | aoc_3/src/main.rs:54-56 | the inches claimed more than once and those claimed once split the keys, so the two printed counts add up to the fabric size |
| FabricClaims.FindIntact | aoc_3/src/main.rs:58-67 | the claim reported is the first in input order sharing none of its inches with another claim; `None` only when every claim overlaps |
| Polymer.Upper | aoc_5/src/main.rs:17 | `to_ascii_uppercase` moves 'a'..'z' down by 32 to 'A'..'Z' and leaves every other character alone |
| Polymer.React | aoc_5/src/main.rs:12-26 | the stack loop computes the reduction; the result has no reacting neighbours, is no longer than the input, and the difference in length is even |
| Polymer.ReduceReduced | aoc_5/src/main.rs:15-25 | no two adjacent units of the result are the same letter in opposite cases |
| Polymer.ReduceLength | aoc_5/src/main.rs:16-23 | each reaction drops two units: the result is no longer than the input and the difference is even |
| Polymer.ReduceSubsequence | aoc_5/src/main.rs:15-25 | the surviving units appear in the input in the same order (the result is a subsequence) |
| Polymer.SubsequenceStep | aoc_5/src/main.rs:15-25 | one more unit, pushed or reacting away with the top of the stack, keeps the survivors in input order |
| Polymer.PushSubsequence | aoc_5/src/main.rs:17-22 | one pass of the loop, popping on a reaction or pushing otherwise, keeps the stack a subsequence of the units read so far |
| Polymer.SubsequencePop | aoc_5/src/main.rs:17-19 | popping the top of the stack (a reaction) leaves the remaining survivors matched to the same input positions |
| Polymer.SubsequenceLonger | aoc_5/src/main.rs:15-25 | survivors matched in a prefix of the input stay matched once more input is read |
| Polymer.SubsequencePush | aoc_5/src/main.rs:22 | pushing a non-reacting unit matches it to its own, last, input position |
| Polymer.ReduceOfReduced | aoc_5/src/main.rs:15-25 | a polymer with no reacting neighbours comes out of `react` unchanged |
| Polymer.ReduceIdempotent | aoc_5/src/main.rs:12-26 | reacting an already reacted polymer changes nothing |
| Polymer.Without | aoc_5/src/main.rs:40 | the filter keeps exactly the units whose uppercase form is not `u`, and never lengthens the input |
| Polymer.ShortestWithoutOneUnit | aoc_5/src/main.rs:32-43 | `None` exactly for an empty input (the `unwrap` panics); otherwise a unit type present in the input whose removal gives the shortest reduction among all unit types present |
| Areas.IndexInRange | aoc_6/src/main.rs:72-80 | an in-bounds coordinate indexes inside the `width * height` cells, and different in-bounds coordinates index different cells |
| Areas.Mark | aoc_6/src/main.rs:53-66 | a clear cell takes the entry's ordinal and generation; a visited cell keeps its generation, and its ordinal turns -1 exactly when another ordinal reaches it in the same generation |
| Areas.Place | aoc_6/src/main.rs:50-66 | `set` on the cells as values: the cell count is unchanged, an out-of-bounds entry changes nothing |
| Areas.PlaceAllGenerations | aoc_6/src/main.rs:50-66 | setting one generation's entries never changes a visited cell's generation; a clear cell stays clear or joins that generation |
| Areas.Expand | aoc_6/src/main.rs:137-146 | the entries of the next generation all carry generation `g + 1` |
| Areas.ExpandWitness | aoc_6/src/main.rs:137-146 | a non-empty next generation comes from some cell set in the current generation |
| Areas.Grid.constructor | aoc_6/src/main.rs:46-48 | `Grid::new`: `width * height` cells, all clear (-1, -1) |
| Areas.Grid.Set | aoc_6/src/main.rs:50-66 | the array afterwards is `Place` of the array before |
| Areas.SetAll | aoc_6/src/main.rs:125-135 | every in-bounds entry is set in order and the ordinals of the out-of-bounds ones are added to `infinite` |
| Areas.NextGeneration | aoc_6/src/main.rs:137-147 | only in-bounds entries whose cell was set in the current generation expand, to their four neighbours, carrying the cell's ordinal |
| Areas.EscapedStep | aoc_6/src/main.rs:126-130 | one more entry adds its ordinal to the escaped set exactly when it is out of bounds |
| Areas.GenerationProgress | aoc_6/src/main.rs:115-152 | a generation leaves every cell clear or set before the next generation, and removes at least one clear cell unless nothing is left to expand, so the loop ends |
| Areas.FrequenciesCount | aoc_6/src/main.rs:154-157 | the fold has a counter exactly for the ordinals outside `infinite` that hold some cell, holding their number of cells |
| Areas.Largest | aoc_6/src/main.rs:159 | `max_by_key`: `None` only for an empty map (the `unwrap` panic), otherwise an ordinal with the largest count |
| Areas.Xs | aoc_6/src/main.rs:99 | the x coordinates of the input, in order |
| Areas.Ys | aoc_6/src/main.rs:100 | the y coordinates of the input, in order |
| Areas.Tally | aoc_6/src/main.rs:154-157 | the fold over the grid's cells computes `Frequencies` |
| Areas.Flood | aoc_6/src/main.rs:115-152 | the loop of `part_1` on values keeps the cell count, and its infinite set holds the ordinals it started from and those that escape the grid in the first pass (later passes: `Areas.FloodCollects`) |
| Areas.Generation | aoc_6/src/main.rs:115-152 | the state at the start of the `k`-th pass of the loop: the cell count is kept, the stack holds one generation, and every cell is clear or was set in an earlier generation |
| Areas.GenerationShift | aoc_6/src/main.rs:115-152 | the passes after the first are the passes of the loop started from the second generation |
| Areas.FloodCollects | aoc_6/src/main.rs:126-130 | every ordinal that escapes the grid in any pass of the loop ends in the infinite set |
| Areas.FloodOnlyEscapes | aoc_6/src/main.rs:126-130 | every ordinal in the final infinite set was there at the start or escaped the grid in some pass |
| Areas.PlaceAllKeeps | aoc_6/src/main.rs:60-65 | setting one generation's entries leaves a cell set in another generation unchanged, so the first generation to reach a cell owns it |
| Areas.PlaceAllElsewhere | aoc_6/src/main.rs:50-53 | entries landing elsewhere leave a cell unchanged |
| Areas.PlaceAllSole | aoc_6/src/main.rs:54-57 | an in-bounds entry that no other entry shares takes a clear cell with its own ordinal and generation |
| Areas.FloodKeeps | aoc_6/src/main.rs:115-152 | once a generation has set a cell, the rest of the flood never changes it |
| Areas.FloodSeed | aoc_6/src/main.rs:111-152 | an input coordinate inside the grid that no other input shares ends the flood holding its own ordinal, set in generation 0 |
| Areas.Part1 | aoc_6/src/main.rs:98-161 | no grid and no result when the input is empty or a dimension is negative (the panics of `max().unwrap()`, of the allocation, or of `max_by_key(..).unwrap()`); otherwise the grid spans columns 0..max_x+1 and rows 0..max_y, its cells and the infinite set are what `Flood` computes from clear cells and the input's seeds, -1 is infinite, the counters count exactly the cells of each finite ordinal, and the result is an ordinal of `freq` paired with its own count, which no counter exceeds, `None` when every area is infinite |
| StepOrder.InitGraph | aoc_7/src/main.rs:35-50 | `blocks` maps exactly the steps named first in some pair to the steps they block, `blocked_by` exactly the steps named second to their blockers, and `nodes` is every step named in the input |
| StepOrder.GraphConsistent | aoc_7/src/main.rs:35-50 | the two maps mirror each other (a blocks b exactly when b is blocked by a), hold no empty set and name only steps of `nodes` |
| StepOrder.FindReady | aoc_7/src/main.rs:52-56 | `find_ready` keeps exactly the steps of `nodes` that have no blocker left, whether their entry is missing or empty |
| StepOrder.FindReadyInitial | aoc_7/src/main.rs:52-56 | `find_ready` yields exactly the steps with no blocker when nothing is done |
| StepOrder.PendingInitial | aoc_7/src/main.rs:72-73 | before any step is done `blocked_by` holds exactly the outstanding blockers |
| StepOrder.FinishProcessing | aoc_7/src/main.rs:58-70 | every step the finished one blocks loses it as a blocker; those left without blockers, or without an entry, become ready and lose their entry; nothing else changes |
| StepOrder.ReleaseStep | aoc_7/src/main.rs:58-70 | finishing a ready step turns the outstanding blockers of the steps done into those of the steps done plus that one |
| StepOrder.FreedStep | aoc_7/src/main.rs:76-81 | the ready set minus the finished step plus the steps it frees is exactly the set ready after it |
| StepOrder.Smallest | aoc_7/src/main.rs:77 | `ready.iter().min()`: a member of the set no larger than any other |
| StepOrder.Round | aoc_7/src/main.rs:77-81 | one round finishes the alphabetically first ready step, keeps every done step after its blockers and leaves `blocked_by` and `ready` describing the new set of done steps |
| StepOrder.Part1 | aoc_7/src/main.rs:72-85 | each step of the result is the alphabetically first step ready after the ones before it; only steps of the graph are listed, and when the loop stops nothing is ready |
| StepOrder.GreedyExtend | aoc_7/src/main.rs:77-79 | appending the smallest ready step keeps the order greedy |
| StepOrder.GreedyDistinct | aoc_7/src/main.rs:76-82 | no step is listed twice |
| StepOrder.ReadyWhileUnfinished | aoc_7/src/main.rs:76-82 | when the steps admit some order that puts every step after its blockers, some step is ready while one is not done, so `part1` lists every step |
| StepOrder.FirstMissing | aoc_7/src/main.rs:76-82 | the first position of an order whose step is not yet done |
| LicenceTree.ParseNode | aoc_8/src/main.rs:27-45 | a node read from the header at `pos` has as many children and metadata entries as the header says and ends after the header, inside the input; None is an `unwrap` at the end of the input |
| LicenceTree.ParseChildren | aoc_8/src/main.rs:36-38 | reading `count` children yields exactly `count` of them and moves forward |
| LicenceTree.BuildTree | aoc_8/src/main.rs:27-45 | the imperative `build_tree` over the shared position computes `ParseNode` |
| LicenceTree.ReadChildren | aoc_8/src/main.rs:36-38 | the children loop computes `ParseChildren` |
| LicenceTree.ReadMetadata | aoc_8/src/main.rs:40-42 | the metadata loop succeeds exactly when `count` entries remain, and yields those entries in order |
| LicenceTree.ParseNodeOf | aoc_8/src/main.rs:27-45 | a header naming `n` children and `m` entries, `n` children read after it and the `m` entries that follow make the node of those children and entries, ending after the entries |
| LicenceTree.ParseSerialize | aoc_8/src/main.rs:27-45 | reading back an encoded node from any input that holds its encoding at `pos` yields that node and the position just after the encoding |
| LicenceTree.ParseSerializeAll | aoc_8/src/main.rs:36-38 | the same round trip for a run of sibling nodes |
| LicenceTree.BuildTreeSerialize | aoc_8/src/main.rs:69 | `build_tree` on the encoding of a tree returns that tree and consumes the whole encoding |
| LicenceTree.ParseTruncated | aoc_8/src/main.rs:28-41 | an input cut short anywhere inside a node's encoding makes `build_tree` panic |
| LicenceTree.ParseTruncatedAll | aoc_8/src/main.rs:36-38 | the same for a run of sibling nodes |
| LicenceTree.Traverse | aoc_8/src/main.rs:47-50 | `traverse` is at least the node's own metadata sum, and exactly that sum for a leaf |
| LicenceTree.TraverseAll | aoc_8/src/main.rs:48 | the children's values sum to a non-negative total |
| Seqs.SumNat | aoc_8/src/main.rs:49 | a sum of metadata entries is non-negative |
| LicenceTree.TraverseSumsMetadata | aoc_8/src/main.rs:47-50 | `traverse` is the sum of every metadata entry of the tree |
| LicenceTree.TraverseAllSums | aoc_8/src/main.rs:48 | the children's `traverse` values sum to the sum of their metadata |
| LicenceTree.Traverse2 | aoc_8/src/main.rs:52-63 | `traverse2` of a leaf is its metadata sum, and any value it gives is non-negative |
| LicenceTree.IndexedSum | aoc_8/src/main.rs:58-62 | the summed values of the named children are non-negative |
| LicenceTree.Traverse2Panics | aoc_8/src/main.rs:52-63 | `traverse2` panics (`idx - 1` on a `usize` 0) exactly when some internal node it visits has a metadata entry 0 |
| LicenceTree.IndexedSumPanics | aoc_8/src/main.rs:58-62 | summing the children named by a run of entries panics exactly when an entry is 0 or names a child whose value panics |
| LicenceTree.PanicsSplit | aoc_8/src/main.rs:55-61 | a metadata list names a panicking entry exactly when its earlier entries do or its last entry is 0 or names a child that panics |
| LicenceTree.IndexedSumNoneNamed | aoc_8/src/main.rs:60 | entries past the last child add nothing: a node whose entries name no child is worth 0 |
| MarbleGame.MarbleCircle.constructor | aoc_9/src/main.rs:26-28 | the circle holds marble 0 alone, and it is current |
| MarbleGame.MarbleCircle.Insert | aoc_9/src/main.rs:30-34 | the marble goes in between the marbles one and two places clockwise of the current one and becomes current; the others keep their order |
| MarbleGame.MarbleCircle.Remove | aoc_9/src/main.rs:36-48 | the marble seven places counter-clockwise is taken out and returned, the others keep their order, and the marble after it (wrapping to the start) becomes current |
| MarbleGame.InsertionIndex | aoc_9/src/main.rs:31 | the insertion index lies between 1 and the circle's size |
| MarbleGame.RemovalIndex | aoc_9/src/main.rs:37-42 | the removal index, both branches of the wrap-around, lies inside the circle |
| MarbleGame.LengthStep | aoc_9/src/main.rs:59-70 | one more marble advances the count of scoring marbles exactly when it is a multiple of 23 |
| MarbleGame.CircleLength | aoc_9/src/main.rs:64-69 | a placed marble makes the circle one longer, a scoring marble one shorter, and a scoring marble finds at least 23 marbles in the circle |
| MarbleGame.ScoringCircleSize | aoc_9/src/main.rs:64-65 | when the marble is a multiple of 23 the circle holds enough marbles that `remove` neither underflows nor empties it |
| MarbleGame.TriangleClosed | aoc_9/src/main.rs:59 | the marbles `1..=n` add up to `n * (n + 1) / 2` |
| MarbleGame.ScoreStep | aoc_9/src/main.rs:64-66 | a scoring turn moves the marble played and the marble removed into the player's score, keeping the total of scores and circle at `1 + ... + m` |
| MarbleGame.PlaceStep | aoc_9/src/main.rs:69 | a placing turn moves the marble into the circle, keeping that total |
| MarbleGame.SumInsert | aoc_9/src/main.rs:32 | inserting a marble adds its number to the circle's sum |
| MarbleGame.SumRemove | aoc_9/src/main.rs:44 | removing a marble takes its number off the circle's sum |
| MarbleGame.NextPlayer | aoc_9/src/main.rs:63 | the next player's index stays among the players |
| MarbleGame.Wrap | aoc_9/src/main.rs:45 | the new current index stays inside the shorter circle |
| MarbleGame.Game | aoc_9/src/main.rs:55-70 | the game after `k` marbles: one score per player, the player of the last marble among them, a circle of `k + 1 - 2 * (k / 23)` marbles and a current index inside it |
| MarbleGame.Turn | aoc_9/src/main.rs:63-69 | one turn keeps one score per player and moves the circle's size from that after `k - 1` marbles to that after `k` |
| MarbleGame.GameTurn | aoc_9/src/main.rs:57-63 | marble `k` is played by player `k % players.len()` |
| MarbleGame.GamePlayer | aoc_9/src/main.rs:63 | each marble is played by the player after the one who played the marble before it |
| MarbleGame.GamePlace | aoc_9/src/main.rs:64-69 | a marble that is not a multiple of 23 leaves every score unchanged |
| MarbleGame.GameScores | aoc_9/src/main.rs:63-66 | with marble `k` only player `k % players.len()` scores, only when `k` is a multiple of 23, and then gains `k` plus the marble seven places counter-clockwise of the current one; every other score is unchanged |
| MarbleGame.GameNoEarlyScore | aoc_9/src/main.rs:55-69 | every score is still 0 before marble 23 |
| MarbleGame.GameTotal | aoc_9/src/main.rs:55-70 | the scores plus the marbles still in the circle add up to `1 + ... + k`: no marble is lost or counted twice |
| MarbleGame.GameTotalStart | aoc_9/src/main.rs:55-57 | before the first marble the scores and the circle add up to 0 |
| MarbleGame.GameTotalStep | aoc_9/src/main.rs:59-70 | each marble keeps the scores plus the circle at `1 + ... + k` |
| MarbleGame.TurnTotal | aoc_9/src/main.rs:63-69 | one turn moves marble `k`, and any marble it takes, into the circle or a score, keeping that total |
| MarbleGame.ScoreTurnTotal | aoc_9/src/main.rs:64-66 | a scoring turn keeps the total of scores and circle at `1 + ... + k` |
| MarbleGame.PlaceTurnTotal | aoc_9/src/main.rs:69 | a placing turn keeps that total |
| MarbleGame.ScoreTurn | aoc_9/src/main.rs:63-66 | the scoring turn adds `k` and the removed marble to the next player's score and takes that marble out of the circle |
| MarbleGame.Play | aoc_9/src/main.rs:51-70 | the scores and the circle at the end of the loop are those of `Game` after `last_marble` marbles |
| MarbleGame.PlayTurn | aoc_9/src/main.rs:63-69 | one pass of the loop on the circle object takes the scores, circle, current index and player to those of `Turn` |
| MarbleGame.SumZeroes | aoc_9/src/main.rs:55 | the players start with a total score of 0 |
| Stars.After | aoc_10/src/main.rs:101-106 | the closed form of a point after `n` seconds keeps its velocity |
| Stars.AfterAll | aoc_10/src/main.rs:101-106 | the sky after `n` seconds: one entry per point, each in closed form |
| Stars.StepAfter | aoc_10/src/main.rs:101-104 | stepping a point after `n` seconds gives the point after `n + 1`: a position is the start plus `n` velocities |
| Stars.AddAssign | aoc_10/src/main.rs:45-50 | `add_assign`, one coordinate after the other, leaves entry `i` as `add` would and touches no other entry |
| Stars.Tick | aoc_10/src/main.rs:102-104 | every entry steps by its velocity exactly once |
| Stars.Xs | aoc_10/src/main.rs:73-74 | the columns of the points, in order |
| Stars.Ys | aoc_10/src/main.rs:71-72 | the rows of the points, in order |
| Stars.ShouldDrawClose | aoc_10/src/main.rs:69-78 | the box test of `print_output` passes exactly when every two points are fewer than 100 columns and 20 rows apart |
| Stars.Widest | aoc_10/src/main.rs:69-78 | the widest gap between two coordinates is the maximum minus the minimum, and some pair of points has it |
| Stars.Second | aoc_10/src/main.rs:102-105 | one round: the sky moves from its closed form at `i - 1` to that at `i`, and the drawing decision is the box test on it |
| Stars.FramesStep | aoc_10/src/main.rs:101-106 | one more round keeps the list of drawn rounds exact |
| Stars.Run | aoc_10/src/main.rs:98-107 | after the loop over rounds `1..12000` the sky is in its closed form at 11999 seconds; with no point at all the result is `None` (the `min().unwrap()` panic of the first `print_output`); otherwise the rounds listed are, in increasing order, exactly those after which the sky is drawn |
| Stars.FromStr | aoc_10/src/main.rs:27-34 | a pair is produced exactly when the text splits at ',' into at least two fields that all parse after trimming, and it is the first two of them; otherwise the `unwrap` (or `vals[1]`) panics |
| Stars.ParseAll | aoc_10/src/main.rs:28-31 | every field parsed in order, or nothing |
| Stars.ParseAllFails | aoc_10/src/main.rs:30 | the collect fails exactly when some field fails to parse |
| Stars.FieldShow | aoc_10/src/main.rs:29-30 | a blank-padded integer trims and parses back to that integer |
| Stars.FromStrShow | aoc_10/src/main.rs:27-34 | `from_str` reads back a pair written as `x, y` with blanks before either number, as the input lines hold it |
| PowerGrid.Quot | aoc_11/src/main.rs:55 | Rust's `/`: the quotient rounds towards zero, leaving a remainder with the dividend's sign |
| PowerGrid.Rem | aoc_11/src/main.rs:55 | Rust's `%`: the remainder has the dividend's sign and agrees with the mathematical one on non-negative dividends |
| PowerGrid.Power | aoc_11/src/main.rs:54-55 | every power level lies between -14 and 4, whatever the signs |
| PowerGrid.PowerDigit | aoc_11/src/main.rs:54-55 | with a non-negative product the power level is the hundreds digit minus 5, between -5 and 4 |
| PowerGrid.Coordinates | aoc_11/src/main.rs:3-8 | `get_coordinates(from, to)` holds exactly the pairs of the square `from..=to` |
| PowerGrid.CoordinatesSorted | aoc_11/src/main.rs:3-8 | the pairs come in x-major, y-minor order |
| PowerGrid.CoordinatesLength | aoc_11/src/main.rs:5 | one pair per cell of the square |
| PowerGrid.Position | aoc_11/src/main.rs:3-8 | every pair of the square has a position in the sequence |
| PowerGrid.VecGrid.constructor | aoc_11/src/main.rs:21-26 | `VecGrid::new`: `width * height` cells, each `i32::MIN` |
| PowerGrid.VecGrid.IndexInRange | aoc_11/src/main.rs:37-47 | an in-bounds 1-based coordinate indexes inside the grid |
| PowerGrid.VecGrid.Get | aoc_11/src/main.rs:33-35 | `get` answers exactly for in-bounds coordinates |
| PowerGrid.VecGrid.GetValue | aoc_11/src/main.rs:33-35 | the answer of `get` is the stored cell |
| PowerGrid.VecGrid.Set | aoc_11/src/main.rs:28-31 | `set` writes the cell at `calculate_index`, so `get` afterwards sees the new value there and the old value everywhere else |
| PowerGrid.CreateGrid | aoc_11/src/main.rs:50-58 | `create_grid(1, n, serial)` holds, at every cell of the n by n grid, that cell's power level |
| PowerGrid.InclusionExclusion | aoc_11/src/main.rs:64-67 | the step of `create_pre_comp`: the total up to (a, b) is the totals up to the left and upper neighbours minus the one up to the diagonal, plus the cell |
| PowerGrid.RectSumEmpty | aoc_11/src/main.rs:64-66 | `unwrap_or(&0)` off the grid: an empty rectangle totals 0 |
| PowerGrid.RectRow | aoc_11/src/main.rs:64-67 | a rectangle one row taller adds that row |
| PowerGrid.RectSumAgree | aoc_11/src/main.rs:60-71 | rectangle totals depend only on the cells inside the grid |
| PowerGrid.CreatePreComp | aoc_11/src/main.rs:60-71 | `create_pre_comp(1, n, grid)` holds, at every cell (x, y), the total of `grid` over the rectangle from (1, 1) to (x, y) |
| PowerGrid.Lookups | aoc_11/src/main.rs:64-66 | the three earlier lookups of one step read the totals of the left, upper and diagonal rectangles, 0 off the grid |
| PowerGrid.SquareRect | aoc_11/src/main.rs:78-82 | the four lookups of `find_max` give the total of the block: inclusion-exclusion on the table |
| PowerGrid.SquareAtLeast | aoc_11/src/main.rs:78-82 | a block of power levels totals at least -14 per cell |
| PowerGrid.FindMaxFromSpec | aoc_11/src/main.rs:77-85 | the fold ends at a best no smaller than its start or any corner; unless it kept its start it holds the first corner reaching that total |
| PowerGrid.FindMaxSpec | aoc_11/src/main.rs:74-86 | `find_max` keeps the requested size, no corner beats it, and unless it kept `((-1, -1), i32::MIN)` it is a corner with that corner's total and no earlier corner in x-major order reaches it (ties keep the first) |
| PowerGrid.CornerSquare | aoc_11/src/main.rs:78-82 | with a true table the value `find_max` computes at a corner is the total of that block |
| PowerGrid.MaxByKey | aoc_11/src/main.rs:99 | `max_by_key`: `None` only on no entries, otherwise an entry with the largest total |
| PowerGrid.MaxByKeyLast | aoc_11/src/main.rs:99 | of several entries with the largest total, `max_by_key` picks the last |
| PowerGrid.Results | aoc_11/src/main.rs:96-98 | one `find_max` per size `1..=n`, in order |
| PowerGrid.AnswerSize | aoc_11/src/main.rs:96-99 | the answer has one of the sizes tried |
| PowerGrid.AnswerBound | aoc_11/src/main.rs:96-99 | no block of any size has a larger total than the answer |
| PowerGrid.BestIsBlock | aoc_11/src/main.rs:74-86 | on a side of at most 300, every block beats `i32::MIN`, so the best of each size is a real block with its true total |
| PowerGrid.Table | aoc_11/src/main.rs:93-94 | the two folds of `main` leave a table whose every cell is the rectangle total of power levels |
| PowerGrid.Run | aoc_11/src/main.rs:88-102 | `main` with serial and side as parameters: `None` only with no size; otherwise no block of any size totals more than the answer, and up to side 300 the answer is a real block of the grid with that total |
| Plants.PotsFromStr | aoc_12/src/main.rs:12-19 | pot `i` holds a plant exactly when character `i` is '#' |
| Plants.RuleFromStr | aoc_12/src/main.rs:23-27 | one flag per character |
| Plants.InputFor | aoc_12/src/main.rs:59-63 | a window is five flags |
| Plants.InputForBits | aoc_12/src/main.rs:59-63 | flag `k` tells whether pot `position - 2 + k` holds a plant |
| Plants.RuleIsWindow | aoc_12/src/main.rs:23-63 | a rule read from text is exactly the window, centred on its third character, of the row the same text describes |
| Plants.SetMin | aoc_12/src/main.rs:66 | `pots.iter().min()`: a pot of the row no larger than any other |
| Plants.SetMax | aoc_12/src/main.rs:67 | `pots.iter().max()`: a pot of the row no smaller than any other |
| Plants.NextGen | aoc_12/src/main.rs:65-72 | the next row lies between two pots before the first plant and two after the last |
| Plants.BarrenWindow | aoc_12/src/main.rs:66-69 | outside that range every window holds no plant |
| Plants.NextGenLocal | aoc_12/src/main.rs:65-72 | unless a window without plants produces one, the next row is exactly the set of pots anywhere on the row whose window is a rule |
| Plants.InputForShift | aoc_12/src/main.rs:59-63 | a window does not depend on where on the row it is taken |
| Plants.NextGenShift | aoc_12/src/main.rs:65-72 | `next_gen` commutes with moving the whole row |
| Plants.ShiftShift | aoc_12/src/main.rs:98 | moving by `d` then by `e` is moving by `d + e` |
| Plants.ShiftExtremes | aoc_12/src/main.rs:66-67 | moving the row moves its first and last plant alike |
| Plants.FixedPersists | aoc_12/src/main.rs:93 | a row `next_gen` leaves unchanged stays so, so stopping at it loses no later generation |
| Plants.Glide | aoc_12/src/main.rs:98 | a row that `next_gen` moves one pot to the right is, `k` generations later, the same row moved `k` pots |
| Plants.SumShiftedAny | aoc_12/src/main.rs:98 | the sum does not depend on the order the hash set is visited in |
| Plants.SumShiftedShift | aoc_12/src/main.rs:98 | adding `d - num_gens` to every pot number is summing the row moved by that much |
| Plants.Run | aoc_12/src/main.rs:84-99 | the loop of `main` ends in a panic on an empty row (in `next_gen`, or in the last `print_pots` when generation 1000 is empty), a silent `return` at the first unchanged generation, or the printed total, as `Plants.RunFrom` defines |
| Plants.RunStable | aoc_12/src/main.rs:93 | a silent stop happens at a generation before 1000 whose row `next_gen` leaves unchanged |
| Plants.RunStableFirst | aoc_12/src/main.rs:89-95 | and no earlier generation was unchanged |
| Plants.GenStep | aoc_12/src/main.rs:92-94 | the generation after a non-empty row is its `next_gen` |
| Plants.RunPanicked | aoc_12/src/main.rs:66-96 | a panic means some generation up to and including 1000 held no plant |
| Plants.RunTotal | aoc_12/src/main.rs:96-98 | a printed total means generation 1000 holds a plant, and it is the sum over generation 1000 of each pot number plus `d - num_gens` |
| Plants.PrintedTotal | aoc_12/src/main.rs:85-98 | when generation 1000 glides one pot per generation, the printed total is the sum of the pot numbers at generation 50000000000 |
| Tracks.NewCart | aoc_13/src/main.rs:27-29 | a new cart heads where its glyph points and turns left at its first crossing |
| Tracks.ClassifyGlyphs | aoc_13/src/main.rs:76-87 | exactly the nine track glyphs produce an entry; every other character is skipped |
| Tracks.ClassifyToChar | aoc_13/src/main.rs:31-87 | a glyph read and written back with `to_char` is the same glyph, and a cart glyph yields a new cart on the straight rail its direction needs |
| Tracks.ToCharClassify | aoc_13/src/main.rs:31-87 | every rail and every new cart is read back from the glyph `to_char` writes for it |
| Tracks.ScanLine | aoc_13/src/main.rs:72-88 | the entries of one line put a rail at exactly the classified columns and a cart at exactly the cart glyphs, on that line only |
| Tracks.InsertLast | aoc_13/src/main.rs:91-95 | folding in the entry of one more column keeps the maps in agreement with the line |
| Tracks.ReadInput | aoc_13/src/main.rs:65-96 | the two maps agree with the drawing at every point: a rail wherever a glyph is classified, a cart wherever the glyph is a cart, nothing anywhere else |
| Tracks.Merge | aoc_13/src/main.rs:91-95 | adding one more line's entries keeps the maps in agreement with the drawing; lines never share a point |
| Tracks.CartsOnRails | aoc_13/src/main.rs:82-95 | every cart stands on a rail, the straight one its direction needs |
| Recipes.DigitsCanonical | aoc_14/src/main.rs:1-10 | `break_down` yields decimal digits with no leading zero, a single digit exactly for numbers below ten |
| Recipes.FromDigitsDigits | aoc_14/src/main.rs:1-10 | the digits `break_down` yields denote the number broken down |
| Recipes.DigitsFromDigits | aoc_14/src/main.rs:1-10 | every digit sequence without a leading zero is what `break_down` yields for its value: the digits are unique |
| Recipes.DigitsOfSum | aoc_14/src/main.rs:19-20 | the sum of two recipe scores breaks down into one or two recipes |
| Recipes.BreakDown | aoc_14/src/main.rs:1-10 | the loop pushing the low digit and then reversing yields the decimal digits, most significant first, `[0]` for zero |
| Recipes.Reverse | aoc_14/src/main.rs:9 | `rev()`: element `i` is element `len - 1 - i` of the original |
| Recipes.Initial | aoc_14/src/main.rs:14-16 | the scoreboard `[3, 7]` with the elves on its two recipes |
| Recipes.Step | aoc_14/src/main.rs:19-22 | one round keeps both elves on the scoreboard |
| Recipes.StepExtends | aoc_14/src/main.rs:19-20 | a round keeps the scoreboard as a prefix and appends at least one recipe |
| Recipes.StepDigits | aoc_14/src/main.rs:19-20 | a round appends at most two recipes, all single digits |
| Recipes.RunDigits | aoc_14/src/main.rs:18-23 | every score on the board is a digit, and each round adds at most two |
| Recipes.RunPrefix | aoc_14/src/main.rs:18-23 | earlier scoreboards are prefixes of later ones |
| Recipes.WindowDigits | aoc_14/src/main.rs:25 | every window of the scoreboard holds single digits |
| Recipes.Round | aoc_14/src/main.rs:19-22 | the loop body shared by both parts performs one round and reports how many recipes it appended |
| Recipes.Part1 | aoc_14/src/main.rs:12-30 | `part_1` stops at the first round with at least `start + 10` recipes and reports the ten digits after the first `start` |
| Recipes.MatchAfterStep | aoc_14/src/main.rs:48-59 | the check reports the start of a window equal to the target ending among the `added` recipes appended last, trying the window at the very end first; None means no such window matches |
| Recipes.CheckMatches | aoc_14/src/main.rs:48-59 | a reported start is a real occurrence of the target that ends among the recipes the round appended |
| Recipes.CheckedRound | aoc_14/src/main.rs:40-59 | one round of `part_2` moves the kitchen one round on and performs its check |
| Recipes.Part2 | aoc_14/src/main.rs:32-63 | `part_2` reports the check of the first round whose check finds the target, and none of the rounds before it found it; with no report none of the rounds run did |
| Cave.Index | aoc_15/src/main.rs:56-58 | `calculate_index` of an on-map point lies inside the `width * height` cells |
| Cave.IndexInjective | aoc_15/src/main.rs:56-58 | different cells of the map are stored at different indices |
| Cave.PointAt | aoc_15/src/main.rs:149 | `(i % width, i / width)`: the on-map point stored at index `i` |
| Cave.IndexReadingOrder | aoc_15/src/main.rs:56-58 | reading order (row, then column) is the order of the indices |
| Cave.Neighbours | aoc_15/src/main.rs:64-76 | `get_neighbours` gives at most four cells, each on the map and next to `pos` |
| Cave.NeighboursAll | aoc_15/src/main.rs:64-76 | the neighbours are exactly the on-map cells next to `pos` |
| Cave.NeighboursAdjacent | aoc_15/src/main.rs:64-76 | `get_neighbours` holds exactly the on-map cells at distance 1 |
| Cave.NeighboursOrdered | aoc_15/src/main.rs:66-71 | up, left, right, down is reading order: at most four neighbours, sorted, each once |
| Cave.NeighboursSymmetric | aoc_15/src/main.rs:64-76 | being neighbours is symmetric between cells of the map |
| Cave.Map.constructor | aoc_15/src/main.rs:44-50 | a `Map` holds the given `width * height` cells row by row |
| Cave.Map.Get | aoc_15/src/main.rs:52-58 | `get` reads the cell stored at row times row length plus column |
| Cave.Map.Set | aoc_15/src/main.rs:60-62 | `set` with the row length as stride: afterwards `get` reads the new value at `pos` and the old value at every other cell |
| Cave.Map.SetAsWritten | aoc_15/src/main.rs:60-62 | `set` as written stores at `height * y + x` |
| Cave.WrittenIndexStrays | aoc_15/src/main.rs:52-62 | on a map that is not square, `set` as written at the first cell of the second row leaves the cell `get` reads there unchanged |
| Cave.WrittenIndexExample | aoc_15/src/main.rs:52-62 | on a map three wide and two high, `set` as written at (0, 1) overwrites (2, 0) and leaves (0, 1) unchanged |
| Cave.WrittenIndexSquare | aoc_15/src/main.rs:56-62 | on a square map `set` as written agrees with `calculate_index` |
| Bandits.ReadingOrder | aoc_15/src/main.rs:94-96 | `sort_by_key((y, x))` of a set of positions: each position once, strictly in reading order |
| Bandits.PosOf | aoc_15/src/main.rs:101-106 | the position found holds the id, and there is none exactly when no position holds it |
| Bandits.IdsInOrder | aoc_15/src/main.rs:93-99 | one id per occupied position |
| Bandits.IdsAt | aoc_15/src/main.rs:98 | the ids at the positions, one by one |
| Bandits.TurnOrderIds | aoc_15/src/main.rs:93-99 | the turn order holds exactly the ids standing on the map |
| Bandits.TurnOrderDistinct | aoc_15/src/main.rs:93-99 | with one position per id, each id comes once |
| Bandits.PosOfAt | aoc_15/src/main.rs:101-106 | with one position per id, looking up the id standing at a position finds that position |
| Bandits.TurnOrderPositions | aoc_15/src/main.rs:93-106 | the positions `find_warrior_pos_by_id` finds for the turn order's ids come in reading order |
| Bandits.Warriors.constructor | aoc_15/src/main.rs:89-91 | `Warriors::new`: both maps empty, the next id 0 |
| Bandits.Warriors.Add | aoc_15/src/main.rs:156-161 | the next id goes to the warrior at `pos`, with that race and id, and the next id advances; the maps stay in one-to-one correspondence |
| Bandits.Warriors.GetByPos | aoc_15/src/main.rs:108-110 | a warrior is found exactly at an occupied position, and it carries that position's id |
| Bandits.Warriors.FindPos | aoc_15/src/main.rs:101-106 | `find_warrior_pos_by_id`: a position holding the id, None exactly when no position does |
| Bandits.Warriors.TurnOrder | aoc_15/src/main.rs:93-99 | one id per occupied position |
| Bandits.Warriors.ByRace | aoc_15/src/main.rs:112-117 | exactly the positions whose warrior is of the race |
| Bandits.Count | aoc_15/src/main.rs:145-155 | the number of warrior letters of a drawing is at most its length |
| Bandits.CountGrows | aoc_15/src/main.rs:156-158 | a warrior letter further on has more warriors before it |
| Bandits.Enlist | aoc_15/src/main.rs:145-162 | the fold gives a warrior to exactly the cells with a warrior letter, of that letter's race, numbered by the warriors before it, and the next id is the number of warriors |
| Bandits.EnlistStep | aoc_15/src/main.rs:148-161 | one more letter keeps the warriors in agreement with the letters read so far |
| Bandits.IdsInReadingOrder | aoc_15/src/main.rs:145-162 | ids are handed out in reading order |
| Bandits.ConcatAt | aoc_15/src/main.rs:134-149 | the letters of a rectangular drawing are stored row by row |
| Bandits.Tiles | aoc_15/src/main.rs:137-142 | a wall exactly at every '#' |
| Bandits.Board.FromLines | aoc_15/src/main.rs:126-165 | `Board::from_input` on the lines of a rectangular drawing: `width` is the first line's length and `height` the number of lines, a wall at every '#', the warriors as `Enlist` reads them |
| Bandits.Board.IsPositionEmpty | aoc_15/src/main.rs:167-170 | a position is empty exactly when it is no wall and no warrior stands on it |
| Bandits.Board.HasAdjacentEnemy | aoc_15/src/main.rs:216-220 | `has_adjacent_enemy` holds exactly when a warrior of the enemy race stands next to the position |
| Movement.Updated | aoc_15/src/main.rs:206 | writing one cell of the flood map changes what is recorded there and nothing else |
| Movement.RaceCells | aoc_15/src/main.rs:112-117 | `get_by_race` on a scene: every position it gives holds a warrior of that race |
| Movement.SceneAgrees | aoc_15/src/main.rs:112-117 | the board's `get_by_race` and `has_adjacent_enemy` agree with those of the board's scene |
| Movement.OpenIff | aoc_15/src/main.rs:167-170 | `is_position_empty` holds exactly for on-map cells with no wall and no warrior |
| Movement.Expansions | aoc_15/src/main.rs:194-207 | the pairs queued for a cell are exactly its neighbours, each paired with that cell |
| Movement.Unvisited | aoc_15/src/main.rs:187 | the count of cells not reached is at most the number of cells |
| Movement.UnvisitedUpdate | aoc_15/src/main.rs:205-206 | reaching a cell leaves one fewer to reach, which is why the loop ends |
| Movement.ReachExtends | aoc_15/src/main.rs:205-206 | reaching an open cell at distance `d` from a neighbour at `d - 1` keeps the distances in range and the round's new cells on the tree |
| Movement.ReachQueues | aoc_15/src/main.rs:206-207 | reaching a cell settles it and queues its neighbours from it |
| Movement.SkipSettles | aoc_15/src/main.rs:203-205 | a queued cell that is skipped is closed or already reached as close |
| Movement.FirstFrom | aoc_15/src/main.rs:202-207 | the cell paired with the first entry for `p` in a queue: None exactly when no entry names `p`, otherwise an entry with no earlier entry for `p` |
| Movement.FirstFromStep | aoc_15/src/main.rs:202-207 | one more entry changes the first entry for `p` only when there was none and the new entry names `p` |
| Movement.FirstQueuedReach | aoc_15/src/main.rs:205-206 | a cell reached at entry `k` had no earlier entry that was open and unreached, so its predecessor is the cell of its first entry |
| Movement.FirstQueuedSkip | aoc_15/src/main.rs:203-205 | a skipped entry changes no first entry of a reached cell |
| Movement.ExpandReach | aoc_15/src/main.rs:205-207 | reaching an open entry not yet reached as close moves every fact of the `for_each` on by one entry |
| Movement.ExpandSkip | aoc_15/src/main.rs:203-205 | skipping an entry that is closed or already as close moves every fact of the `for_each` on by one entry |
| Movement.ExpandRound | aoc_15/src/main.rs:202-208 | the `for_each`: cells reached before keep their entries; every open queued cell not yet reached as close is reached at `d`, from the cell of the FIRST entry queued for it; the new queue holds exactly their neighbours; fewer cells are left unreached whenever something is queued |
| Movement.ExpandEntry | aoc_15/src/main.rs:200-212 | one entry of the queue: an open cell not yet reached as close as `d` is reached from the entry's source and its neighbours are queued; every other cell, and the queue, stay as they were |
| Movement.FloodStart | aoc_15/src/main.rs:184-196 | after writing the start at (0, (0, 0)) and queueing its neighbours, the loop's state holds for distance 1 |
| Movement.TreeStep | aoc_15/src/main.rs:198-211 | after a round every reached cell but the start is open and was reached from a neighbour one closer |
| Movement.CoversStep | aoc_15/src/main.rs:207 | after a round every neighbour of every cell at distance `d` is queued |
| Movement.CompleteStep | aoc_15/src/main.rs:198-211 | after a round every open neighbour of a cell closer than `d` is reached at most one further |
| Movement.RoundKeeps | aoc_15/src/main.rs:198-211 | one round takes the loop's state for distance `d` to that for `d + 1` |
| Movement.FloodDone | aoc_15/src/main.rs:198 | when the queue runs dry every open neighbour of every reached cell is reached |
| Movement.FloodRound | aoc_15/src/main.rs:199-210 | one pass of the loop keeps its state and leaves fewer cells unreached unless the queue runs dry |
| Movement.FloodFill | aoc_15/src/main.rs:183-214 | `flood_fill` returns a map of the board's size with the start at (0, (0, 0)), every other reached cell open and reached from a neighbour one closer, and every open cell next to a reached one reached |
| Movement.PathBack | aoc_15/src/main.rs:257-261 | walking back along the predecessors from a reached cell passes over open neighbouring cells, one closer to the start each step |
| Movement.PathToStart | aoc_15/src/main.rs:257-261 | and reaches the start after exactly as many steps as the distance |
| Movement.NoShortcut | aoc_15/src/main.rs:183-214 | no walk over open cells from the start is shorter than the distance recorded at its end: the distances are shortest |
| Movement.OpenPathPrefix | aoc_15/src/main.rs:183-214 | a walk over open cells without its last cell is still one |
| Movement.NoShortcutStep | aoc_15/src/main.rs:202-208 | one more step onto an open neighbour of a reached cell adds at most one to the recorded distance |
| Movement.Nearest | aoc_15/src/main.rs:251-252 | the first cell of a set by distance, then reading order |
| Movement.ChooseTarget | aoc_15/src/main.rs:246-252 | `target` is None exactly when no reached cell is next to an enemy, and otherwise such a cell that is nearest, ties broken by reading order |
| Movement.TargetIsNearest | aoc_15/src/main.rs:244-252 | whenever an open walk from the warrior ends next to an enemy, a target exists no further away than that walk |
| Movement.CandidateElsewhere | aoc_15/src/main.rs:227-252 | with no enemy next to the warrior, the target is never the warrior's own cell |
| Movement.Backtrack | aoc_15/src/main.rs:257-261 | the backtracking loop stops at the cell reached straight from the start: an open neighbour of the start at distance 1, the first step on the recorded way to the target |
| Movement.BackBegins | aoc_15/src/main.rs:257 | the backtracking loop starts at the target, a reached cell other than the start |
| Movement.BackStep | aoc_15/src/main.rs:258-260 | a step back that does not reach the start leads to a reached cell one closer, one more link back along the tree |
| Movement.BackEnds | aoc_15/src/main.rs:258-261 | when the step back reaches the start, the current cell is the first step: at distance 1, an open neighbour of the start |
| Movement.PlanTurn | aoc_15/src/main.rs:225-261 | no step when an enemy is adjacent; otherwise the first step towards the target chosen on the flood from `pos`, None when there is no target; any step goes to an open neighbour |
| Movement.Moved | aoc_15/src/main.rs:263-264 | the positions after a step: the id leaves `pos` for the step, and every other position keeps its id; no step changes nothing |
| Movement.NextTurn | aoc_15/src/main.rs:222-270 | the step is the one planned on the board before the turn: none with an enemy adjacent, otherwise the first step towards the target chosen on the flood `dists` from `pos`; the id then moves to it, to an empty neighbouring cell no warrior held; the warriors and the next id are unchanged |
| Movement.MoveWarrior | aoc_15/src/main.rs:263-264 | the id at `pos` is removed and inserted at the step; nothing else changes |
| Movement.OpenStep | aoc_15/src/main.rs:263-264 | a step into an open cell goes to an empty on-map cell that no warrior holds, never back to `pos` |
| Movement.PosOfUnique | aoc_15/src/main.rs:101-106 | with one position per id, `find_warrior_pos_by_id` finds the position the id stands at |
| Movement.PosOfMove | aoc_15/src/main.rs:263-264 | moving one warrior moves its id and leaves where every other id is found |
| Movement.ValuesAreIds | aoc_15/src/main.rs:82-86 | the ids standing on the map are exactly the ids of the warriors |
| Movement.TurnsTakenStep | aoc_15/src/main.rs:276-281 | one more turn extends the record of a round by its step, its flood and the positions it leaves |
| Movement.TakeTurn | aoc_15/src/main.rs:277-281 | the loop body: the warrior with `id`, looked up by `find_warrior_pos_by_id`, takes the turn planned where it stands; when it is not found nothing changes |
| Movement.RoundBegins | aoc_15/src/main.rs:272-276 | before the first turn the turn order names each warrior once and nobody has moved |
| Movement.PlayingStep | aoc_15/src/main.rs:276-281 | a turn taken on the positions the earlier turns left moves the loop's record on by one turn |
| Movement.NextRound | aoc_15/src/main.rs:272-283 | `next_round`: `order` is the turn order taken at the start; turn `i` is taken by `order[i]` on the positions the earlier turns left, exactly as `next_turn` plans it on that board (no step with an enemy adjacent, else the first step towards the nearest target), and leaves the next positions; the same warriors stay and each ends at most one step from where it began |
| Movement.TurnKeeps | aoc_15/src/main.rs:276-281 | one turn keeps the ids on the board, leaves the warriors still to come where they started, and moves the current one at most one step |
| Ops.BitAnd | aoc_16/src/ops.rs:25-35 | the bitwise and of two non-negative values is at most each of them |
| Ops.BitOr | aoc_16/src/ops.rs:37-47 | the bitwise or of two non-negative values is at least each of them |
| Ops.Addr | aoc_16/src/ops.rs:1-5 | writes `r[a] + r[b]` into register `c`; every other register keeps its value |
| Ops.Addi | aoc_16/src/ops.rs:7-11 | writes `r[a] + b` into register `c`; every other register keeps its value |
| Ops.Mulr | aoc_16/src/ops.rs:13-17 | writes `r[a] * r[b]` into register `c`; every other register keeps its value |
| Ops.Muli | aoc_16/src/ops.rs:19-23 | writes `r[a] * b` into register `c`; every other register keeps its value |
| Ops.Banr | aoc_16/src/ops.rs:25-29 | writes `r[a] & r[b]` into register `c`, a value at most `r[a]` and at most `r[b]`; every other register keeps its value |
| Ops.Bani | aoc_16/src/ops.rs:31-35 | writes `r[a] & b` into register `c`, a value at most `r[a]` and at most `b`; every other register keeps its value |
| Ops.Borr | aoc_16/src/ops.rs:37-41 | writes `r[a] \| r[b]` into register `c`, a value at least `r[a]` and at least `r[b]`; every other register keeps its value |
| Ops.Bori | aoc_16/src/ops.rs:43-47 | writes `r[a] \| b` into register `c`, a value at least `r[a]` and at least `b`; every other register keeps its value |
| Ops.Setr | aoc_16/src/ops.rs:49-53 | copies `r[a]` into register `c`; every other register keeps its value |
| Ops.Seti | aoc_16/src/ops.rs:55-59 | writes `a` into register `c`; every other register keeps its value |
| Ops.Gtir | aoc_16/src/ops.rs:61-65 | writes 1 into register `c` exactly when `a > r[b]`, else 0; every other register keeps its value |
| Ops.Gtri | aoc_16/src/ops.rs:67-71 | writes 1 into register `c` exactly when `r[a] > b`, else 0; every other register keeps its value |
| Ops.Gtrr | aoc_16/src/ops.rs:73-77 | writes 1 into register `c` exactly when `r[a] > r[b]`, else 0; every other register keeps its value |
| Ops.Eqir | aoc_16/src/ops.rs:79-83 | writes 1 into register `c` exactly when `a == r[b]`, else 0; every other register keeps its value |
| Ops.Eqri | aoc_16/src/ops.rs:85-89 | writes 1 into register `c` exactly when `r[a] == b`, else 0; every other register keeps its value |
| Ops.Eqrr | aoc_16/src/ops.rs:91-95 | writes 1 into register `c` exactly when `r[a] == r[b]`, else 0; every other register keeps its value |
| Ops.AndPlusOr | aoc_16/src/ops.rs:25-47 | `x & y` plus `x \| y` is `x + y`, so and and or are tied to each other for all operands |
| Ops.BitSymmetric | aoc_16/src/ops.rs:25-47 | and and or are commutative and idempotent |
| Ops.RegisterIsImmediate | aoc_16/src/ops.rs:1-95 | each register form (addr, mulr, banr, borr, setr, gtrr, eqrr) equals its immediate form given the register's value |
| Ops.IgnoresB | aoc_16/src/ops.rs:49-59 | setr and seti give the same registers whatever `b` is |
| Ops.Symmetric | aoc_16/src/ops.rs:1-95 | addr, mulr, banr, borr and eqrr do not depend on the order of `a` and `b`; gtrr in both orders writes 1 at most once |
| Device.Index | aoc_16/src/main.rs:86-126 | every operation has a place among the sixteen keys of `init_operations` |
| Device.OperationsComplete | aoc_16/src/main.rs:107-126 | `init_operations` holds exactly the sixteen operations, each once |
| Device.Exec | aoc_16/src/main.rs:107-126 | the operation `init_operations` maps an operation name to changes no register except `c` |
| Device.ComparisonsAreFlags | aoc_16/src/ops.rs:61-95 | gtir, gtri, gtrr, eqir, eqri and eqrr write 1 exactly when their comparison holds, 0 otherwise |
| Device.Matching | aoc_16/src/main.rs:131-140 | the operations that reproduce a sample are among the sixteen |
| Device.MatchingAtMost16 | aoc_16/src/main.rs:131-140 | a sample is reproduced by at most sixteen operations |
| Device.Part1 | aoc_16/src/main.rs:128-145 | the number of samples with three or more matching operations is at most the number of samples |
| Device.Part1Counts | aoc_16/src/main.rs:128-145 | `part_1` counts exactly the samples that three or more operations reproduce |
| Device.CodesBelow16 | aoc_16/src/main.rs:150 | `all_opcodes` is the opcodes 0 to 15 |
| Device.Eliminate | aoc_16/src/main.rs:157-167 | one sample removes its opcode from every operation that does not reproduce it and from no other |
| Device.EliminateAll | aoc_16/src/main.rs:150-168 | after all samples, each operation's candidates are all sixteen opcodes less those of the samples it fails |
| Device.Only | aoc_16/src/main.rs:173 | the element taken from a one-element set is its only element |
| Device.Singletons | aoc_16/src/main.rs:171-174 | `to_remove` lists exactly the operations with a single candidate, each with that candidate |
| Device.RemoveElsewhere | aoc_16/src/main.rs:177-178 | the opcode leaves every operation except the one that claims it |
| Device.RemoveAll | aoc_16/src/main.rs:176-179 | after the loop, each operation has lost the opcodes of every other singleton in `to_remove` |
| Device.RemovedIsClaimed | aoc_16/src/main.rs:171-179 | what the loop removes from an operation is exactly the opcodes the other singletons claim, whatever the order of `to_remove` |
| Device.PropagateOnce | aoc_16/src/main.rs:171-179 | one pass equals the order-free propagation step on the candidate map |
| Device.PassesShrink | aoc_16/src/main.rs:170-180 | the propagation passes only ever remove candidates |
| Device.PropagateAll | aoc_16/src/main.rs:170-180 | the sixteen passes produce the sixteen-fold propagation of the start map, and candidates stay below 16 |
| Device.Fill | aoc_16/src/main.rs:188-194 | the table has sixteen entries; entry `k` is the operation whose only candidate is `k`, or addr when there is none |
| Device.ResolveOpcodes | aoc_16/src/main.rs:147-195 | it panics exactly when some operation does not end with exactly one candidate; otherwise its table maps each opcode to the operation claiming it |
| Device.EliminatedKeeps | aoc_16/src/main.rs:156-168 | when a one-to-one assignment explains every sample, elimination never removes an operation's true opcode |
| Device.PassesKeep | aoc_16/src/main.rs:170-180 | under such an assignment no propagation pass removes an operation's true opcode |
| Device.FinalIsSigma | aoc_16/src/main.rs:182-186 | when each operation is left with one candidate, it is the true opcode |
| Device.TableIsSigma | aoc_16/src/main.rs:188-194 | a table built from the true opcodes maps each back to its operation |
| Device.ResolvedTable | aoc_16/src/main.rs:147-195 | if the samples are explained by a one-to-one assignment and `resolve_opcodes` does not panic, its table is that assignment |
| Device.RunAppend | aoc_16/src/main.rs:200-206 | running two programs in turn is running their concatenation |
| Device.Part2 | aoc_16/src/main.rs:197-209 | the registers start at zero and each instruction replaces them by the table's operation applied to them; a panic stops the run |
| Reservoir.Height | aoc_17/src/main.rs:42 | the repeat count of each column is positive |
| Reservoir.Coordinates | aoc_17/src/main.rs:40-45 | there are as many coordinates as columns times rows |
| Reservoir.CoordinatesCover | aoc_17/src/main.rs:40-45 | a point is among the coordinates exactly when it lies in the rectangle `left..=right` by `top..=bottom` |
| Reservoir.CoordinatesOrder | aoc_17/src/main.rs:40-45 | the coordinates run column by column, top to bottom, each point once |
| Reservoir.Run | aoc_17/src/main.rs:50-51 | a greedy run is the longest prefix whose characters all match |
| Reservoir.Capture | aoc_17/src/main.rs:50-57 | a captured value is non-empty and made of digits and dots |
| Reservoir.CaptureSkip | aoc_17/src/main.rs:50-57 | text before the key that does not contain the key does not change the capture |
| Reservoir.CaptureAt | aoc_17/src/main.rs:50-57 | `key=v` followed by a non-value character captures exactly `v` |
| Reservoir.CaptureBoth | aoc_17/src/main.rs:50-57 | in a line `k1=v1, k2=v2` followed by any text that does not continue `v2`, each key captures its own value |
| Reservoir.CaptureVein | aoc_17/src/main.rs:50-57 | the same holds with any text before the vein that mentions neither key |
| Reservoir.CaptureAbsent | aoc_17/src/main.rs:50-57 | a line without the key captures nothing for it |
| Reservoir.ParseVein | aoc_17/src/main.rs:48-60 | in `k1=a, k2=b..c`, with any such text around it, `k1` captures `a` and `k2` captures `b..c` |
| Reservoir.FindRange | aoc_17/src/main.rs:64-67 | a matched range is two non-empty runs of digits |
| Reservoir.FindRangeNoDot | aoc_17/src/main.rs:64-67 | text without a dot holds no range |
| Reservoir.FindRangeNoPair | aoc_17/src/main.rs:64-67 | text without two dots in a row holds no range |
| Reservoir.ParseValue | aoc_17/src/main.rs:62-71 | a value parses exactly when it holds a range or is a number; a range gives its two ends, and a number `v` with no range gives `(v, v)` |
| Reservoir.ParseValueSingle | aoc_17/src/main.rs:62-71 | a single number `a` is read back as `(a, a)` |
| Reservoir.ParseValueRange | aoc_17/src/main.rs:62-71 | a range `a..b` is read back as `(a, b)` |
| Reservoir.ParseValueDot | aoc_17/src/main.rs:62-71 | a value `a.b` with a single dot is neither a range nor a number, so its `unwrap` fails |
| Reservoir.ParseLine | aoc_17/src/main.rs:48-60 | `parse_line` gives an entry exactly when both keys are found and both values parse, with the columns from the `x` value and the rows from the `y` value; it skips exactly when a key is missing and every value found parses, so a bad value panics even when the other key is missing |
| Reservoir.ParseLineDotPanics | aoc_17/src/main.rs:48-60 | `x=a.b` panics although the `y` key is missing: the found value is parsed before the missing key is noticed |
| Reservoir.ParseLineOneKey | aoc_17/src/main.rs:48-60 | a line with only `x=a` is skipped |
| Reservoir.ParseVertical | aoc_17/src/main.rs:48-60 | `x=a, y=b..c` gives the entry with column `a` and rows `b` to `c`, whatever text comes before it without either key and after it without continuing the range |
| Reservoir.ParseHorizontal | aoc_17/src/main.rs:48-60 | `y=a, x=b..c` gives the entry with row `a` and columns `b` to `c`, with the same surrounding text allowed |
| Reservoir.Get | aoc_17/src/main.rs:112-114 | the tile stored at the point, or `Empty` where nothing is stored |
| Reservoir.YRangeSpans | aoc_17/src/main.rs:100-102 | `y_range` is `(usize::MAX, 0)` for no entries; otherwise it runs from the least top to the greatest bottom, both attained by some entry |
| Reservoir.InsertAll | aoc_17/src/main.rs:105-107 | one entry adds `Clay` at exactly its rectangle and keeps every other tile |
| Reservoir.Create | aoc_17/src/main.rs:99-114 | the map's keys are exactly the covered points, `get` gives `Clay` there and `Empty` elsewhere, and `y_range` is the fold over the entries |

## Left out

- Reading the input files, the `lazy_static` regular expressions and every print function (`print_output`, `print_pots`, `print_state`, `Map::print`, the `to_char` of the day 15 and day 17 tiles) are I/O. The parsers that matter are modelled by hand over `string` and `seq<string>`.
- `aoc_4` is not part of this model. Its only logic is regular-expression captures parsed into records that are printed.
- The `ncurses` crate of day 10 is imported but never used for logic.
- Overflow is not modelled, because integers are unbounded. This covers `i32` arithmetic in days 10, 11 and 16, and `usize` underflow in days 8, 9 and 17. The underflows that the code can reach are modelled as panics or preconditions instead: `idx - 1` in day 8, `current + len - 7` in day 9 and `bottom - top + 1` in day 17.
- `FrequencyDrift.FirstRepeat`: the cycled search has no bound in the code. The model stops after `fuel` changes and says so in its result.
- `Recipes.Part2`: the search has no bound in the code. The model stops after `fuel` rounds.
- `Plants.Run`: the run is modelled for its 1000 generations. The extrapolation to fifty billion generations is only the printed sum, and is covered by `Plants.PrintedTotal`.
- `MarbleGame.Play`: the number of players and the last marble are parameters, not the crate's fixed constants (441 players, last marble 71032). The printed scores and their maximum are the `scores` result and its largest element; the printing is not modelled.
- `Polymer.ShortestWithoutOneUnit` and `Areas.Largest` state only the minimum length or maximum count. Among ties, the unit or ordinal that is reported depends on hash iteration order.
- `StepOrder`: `part2` of day 7 is not modelled. It is never called, and its worker countdown changes a copy, so it would not end.
- `Cave.Map.Set` uses the row length as its stride, as `get` does. The code's stride is written as the height (see Findings). `Cave.Map.SetAsWritten` keeps the code's version.
- `Movement.FloodFill`, `Movement.PlanTurn`, `Movement.NextTurn` and `Movement.NextRound` model the corrected code: the flood writes through `Cave.Map.Set`. The code's `flood_fill` writes through the `set` as written. On a map that is not square it writes other cells than it reads back, and on a map taller than wide it can index past the grid. The two agree only on square maps, as `Cave.WrittenIndexSquare` states.
- `Bandits.Board.FromLines` takes the lines of a rectangular drawing. A ragged drawing, which the code would index past a row, is excluded by its precondition. It also requires at least one line: on an empty input the code's `lines[0]` panics, and the model does not return that panic. The drawing is taken to be ASCII. The code takes the width as the byte length of the first line but numbers the positions by characters, so on a drawing with a non-ASCII character the code's positions shift, while the model counts characters for both.
- `Bandits.Warriors.FindPos`: when several positions held the same id, the code returns whichever the hash map yields first, while the model picks the first in reading order. Consistent boards, which every operation keeps, hold each id once.
- `Movement.FloodFill` does not pin the map it returns to one value. It states that every reached cell was reached from a neighbour one closer. Which such neighbour is stated round by round, in `Movement.ExpandRound`: the first one queued. Carrying that to the whole flood would mean restating the loop as a function. So when two shortest ways lead to the target, `Movement.PlanTurn`, `Movement.NextTurn` and `Movement.NextRound` say only that the step is the first step back along the flood's recorded way.
- `Movement.FloodFill`, `Movement.PlanTurn`, `Movement.NextTurn` and `Movement.NextRound` require the map to have fewer than `i32::MAX` cells. The code uses `i32::MAX` to mean "not reached".
- The comment in day 15 says the first step is the reading-order-first among equally short paths. The code does not guarantee this, and it is not claimed.
- Combat, hit points and the attack-power search are not modelled, because day 15's code has none.
- `Ops`: registers and operands are naturals. The puzzle input has only non-negative numbers, and no operation makes one negative.
- `Device.Part1` and `Device.ResolveOpcodes` require every sample's operands to be register numbers below 4. The code runs all sixteen operations on every sample, and `addr` reads both `a` and `b`, so any other sample is an index panic.
- `Device.Part2` reports a panic as `None`. That happens when an opcode is past the table or an operand is not a register.
- `Reservoir.IsValueChar` and `Reservoir.FindRange` read the `\d` of day 17's patterns as the ASCII digits `0` to `9`. The regex crate's `\d` also matches the decimal digits of other scripts, such as `٣`. On such a digit the code captures it and then panics in `parse_value`. The model finds no value for that key there. The input is taken to be ASCII. `Decimal.ParseNat` needs no such note, because Rust's `parse` accepts only ASCII digits.
- `Reservoir.Create` takes the entries after parsing. `read_input` only drops the lines for which `Reservoir.ParseLine` gives `Skip`.

## Findings

| source | as written | input that shows it | evidently intended | confidence | as-written member | corrected member |
|---|---|---|---|---|---|---|
| aoc_15/src/main.rs:60-62 | `set` stores at `height * y + x` | a map 3 wide and 2 high: setting (0, 1) writes index 2, which is cell (2, 0), and `get(0, 1)` still reads the old value from index 3 | `width * y + x`, the index `calculate_index` uses for `get` | not executed | Cave.WrittenIndexExample | Cave.Map.Set |
