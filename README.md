# numberplace-core in Dafny

A model of the grid-constraint engine of a generalised Sudoku ("number place"). The grid is
built from blocks of `block_height x block_width` cells and its side is `h * w`. The symbols
are `1..=h*w`. The model covers:

- the setting, with the side size and the symbol alphabet;
- the first, 1-based cell and game API (`create_cells`, `NormalGame::new`);
- the groups: rows, columns and blocks over shared cells, each with a list of remaining
  symbols. The hidden-single query, elimination and the duplicate and all-clear checks are
  modelled too;
- undoing an answer (`remove_answer`). It gives the symbol back to the cell's groups and
  recomputes candidates as the intersection of the groups' lists;
- the solver. It runs rounds of naked singles, then hidden singles. After three stalled
  rounds it guesses on the cell with the fewest candidates and solves copies recursively;
- the shuffler. It permutes rows within bands, columns within bands, whole row bands and
  whole column bands, and takes an injected index function;
- the pattern relabeller. It looks up a template by block size and writes symbols for its
  letters.

The shared `Rc<RefCell<Cell>>` cells become an arena. `seq<Cell>` is indexed by cell id,
and a group stores the ids of its members (`Group(members, remaining)`). A cell is
`Cell(pos, candidates, answer)`. Candidate and remaining lists stay sequences, because
their order shows in the results. The game (`Board.Game`) and the solver (`Solve.Solver`)
are classes whose methods update their fields. Each of those methods is proved against a
function on the state, and the lemmas next to it prove what that function promises.

Every consistent game satisfies one invariant, `Board.Consistent`:

- positions are distinct;
- the answered count is the number of answered cells;
- an answered cell holds a symbol and no candidates;
- every group has `side` members and lists each symbol at most once;
- a group lists only symbols that none of its members has answered.

The constructor establishes this invariant, and `set_answer`, elimination, `remove_answer`
and every shuffle step keep it.

Two cell APIs appear in the source, and the model keeps them apart. The first is
`src/normal_game/cell.rs` and `src/normal_game.rs`, with 1-based `row`/`col` and no groups;
it is modelled in `LegacyCell` and `LegacyGame`. The second is used by every other file: a
0-based `Position::new(x, y)` and a game that owns cells and groups; it is modelled in
`Cells`, `Groups`, `Layout` and `Board`. The second API's `NormalGame` (its constructor,
`set_answer`, `status`, `clone`, `find_cell`) and the cell methods it calls are not part of
the source files modelled here. They are given the behaviour their call sites rely on:

- `set_answer` does nothing on an answered cell. Otherwise the cell takes the answer and
  loses its candidates, every group of the cell drops the symbol, and the count goes up.
- `status` is Failure when a group repeats an answer or an unanswered cell has no
  candidates. Otherwise it is Complete when every list is empty and every cell is answered,
  and Solving in all other cases.
- A group's `restore_answer_candidate` appends the symbol unless a member still holds it.
- A cell's `restore_answer_candidate` replaces the candidates of an unanswered cell.

## Model

| member | source | states |
|---|---|---|
| Setting.SideSize | src/normal_game/setting.rs:7-9 | The side is `block_height * block_width`. It fits in `u8` and is at least 1 for non-empty blocks. |
| Setting.AnswerCandidate | src/normal_game/setting.rs:10-12 | The alphabet has `side` entries, and entry `i` is `i + 1`. |
| Setting.AnswerCandidateIsAlphabet | src/normal_game/setting.rs:10-12 | The alphabet holds exactly the symbols `1..=side`, strictly ascending, so without repeats. |
| Setting.RangeMembers | src/normal_game/setting.rs:11 | `(lo..hi).collect()` holds exactly the numbers from `lo` up to, but not including, `hi`. |
| Setting.AnswerCandidateExample | src/normal_game.rs:31-37 | A 2x3 setting has side 6 and alphabet `[1, 2, 3, 4, 5, 6]`. |
| LegacyCell.CreateCells | src/normal_game/cell.rs:14-24 | The nested row/column loops produce exactly the row-major layout: cell `i` is at row `i / side + 1`, column `i % side + 1`. |
| LegacyCell.LayoutBounds | src/normal_game/cell.rs:16-21 | Every row and column of the layout lies in `1..=side`. |
| LegacyCell.LayoutDistinct | src/normal_game/cell.rs:16-21 | Different indexes hold different positions. |
| LegacyCell.LayoutCovers | src/normal_game/cell.rs:16-21 | Every position of the grid appears, at index `(row - 1) * side + (col - 1)`. |
| LegacyCell.LayoutExample | src/normal_game/cell.rs:33-76 | A 2x3 setting gives 36 cells: the first at (1,1), the second at (1,2), the last at (6,6). |
| LegacyGame.New | src/normal_game.rs:13-20 | The block size is copied unchanged. The alphabet is exactly `1..=h*w`, and there are `side * side` cells. |
| LegacyGame.NewExample | src/normal_game.rs:30-45 | A 2x3 game has the alphabet `[1..6]` and 36 cells. |
| Cells.MoveX | src/normal_game/group.rs:134 | `move_x` changes only x, by `delta`. The `u8` coordinate must stay in `0..=255`. |
| Cells.MoveY | src/normal_game/group.rs:134 | `move_y` changes only y, by `delta`, within `0..=255`. |
| Cells.GetLonely | src/solver.rs:28-33 | A cell reports a naked single exactly when it has one candidate, and the single is that candidate. |
| Cells.FindCell | src/normal_game/remove_answer.rs:10 | The result is the first cell at `pos`, or None exactly when no cell stands there. |
| Cells.FindOwnCell | src/normal_game/remove_answer.rs:10 | With distinct positions, looking a cell up by its position finds that cell. |
| Groups.GetLonely | src/normal_game/group.rs:23-37 | The loop's output equals `Lonelies`, which has one entry per remaining symbol that a single member holds, in list order. |
| Groups.LoneliesMembers | src/normal_game/group.rs:23-37 | `(p, c)` is reported exactly when `c` is remaining and exactly one member holds it, and that member stands at `p`. |
| Groups.LoneliesAppend | src/normal_game/group.rs:25 | The output follows the remaining list: splitting the list splits the output. |
| Groups.HoldersFromOne | src/normal_game/group.rs:26-32 | The holder list has length one exactly when a single member holds the symbol, and then it is that member's position. |
| Groups.HoldersFromEmpty | src/normal_game/group.rs:26-32 | The holder list is empty exactly when no member holds the symbol. |
| Groups.RemoveAnswerCandidate | src/normal_game/group.rs:40-50 | The group list loses every copy of the symbol and keeps the rest in order. Every member cell loses it as a candidate, and other cells are untouched. |
| Groups.RemoveAnswerCandidateEffect | src/normal_game/group.rs:40-50 | After the removal, a symbol is in the list or in a member's candidates exactly when it was there before and is not the removed one. |
| Groups.IsAllClearAnswerCandidate | src/normal_game/group.rs:52-54 | True exactly when the group's list holds no symbol. |
| Groups.AnswersFromMembers | src/normal_game/group.rs:57-63 | The collected answers are exactly the answers some member holds; unanswered members are skipped. |
| Groups.AnswersFromDistinct | src/normal_game/group.rs:56-67 | The collected answers repeat nothing exactly when no two members share an answer. |
| Groups.IsDuplicateAnswer | src/normal_game/group.rs:56-67 | Comparing the answers' length with their set's size gives true exactly when two members hold the same answer. |
| Groups.SharedAnswerStep | src/normal_game/group.rs:56-67 | Two members from `i` on share an answer exactly when two from `i + 1` on do, or member `i` shares its own with a later member. |
| Groups.Select | src/normal_game/group.rs:93-97 | The filter keeps exactly the cells whose coordinate on the axis is `v`, in arena order. |
| Groups.CreateVerticalGroups | src/normal_game/group.rs:84-102 | There are `side` groups. Group `x` holds exactly the cells in column `x`, ascending in arena order, and starts with the whole alphabet. |
| Groups.CreateHorizontalGroups | src/normal_game/group.rs:104-122 | There are `side` groups. Group `y` holds exactly the cells in row `y`, in arena order, and starts with the whole alphabet. |
| Groups.MultiplesOf | src/normal_game/group.rs:154-163 | The filter keeps exactly the multiples of `m`, in order. |
| Groups.MultiplesOfRange | src/normal_game/group.rs:153-163 | The multiples of `m` below `n * m` are `0, m, ..., (n - 1) * m`. |
| Groups.StartGridIndex | src/normal_game/group.rs:164-173 | Entry `i` of the flattened y-by-x grid is x number `i % |xs|` and y number `i / |xs|`. |
| Groups.CreateBlockStartPositions | src/normal_game/group.rs:152-174 | There are `side` start positions, and entry `b` is the top-left corner of block `b`. |
| Groups.BlockStartsAt | src/normal_game/group.rs:152-174 | The filter-and-flatten pipeline over `0..side` yields the corners of the blocks in block order. |
| Groups.BlockStartPositionsMeaning | src/normal_game/group.rs:152-174 | The start positions are exactly the grid positions with x a multiple of the width and y a multiple of the height, ordered by y, then by x. |
| Groups.BlockStartPositionsExample | src/normal_game/group.rs:234-246 | For 2x3 the starts are (0,0), (3,0), (0,2), (3,2), (0,4), (3,4). |
| Groups.BlockStep | src/normal_game/group.rs:132-134 | Loop step `(y, x)` visits cell `y * w + x` of the block. That cell is the start moved by `(x, y)` and lies inside the grid. |
| Groups.BlockCellInGrid | src/normal_game/group.rs:134-139 | Every position a block visits lies inside the grid, so the lookup's `unwrap` succeeds on a full grid. |
| Groups.CollectBlock | src/normal_game/group.rs:131-143 | The nested loops list, for each of the block's `side` positions, the first cell found there. |
| Groups.CreateBlockGroups | src/normal_game/group.rs:124-150 | There are `side` groups. Group `b` lists block `b`'s cells row-major from its start and starts with the whole alphabet. |
| Groups.CreateGroups | src/normal_game/group.rs:70-82 | There are `3 * side` groups: all rows, then all columns, then all blocks. |
| Groups.FirstBlockExample | src/normal_game/group.rs:259-277 | The first 2x3 block is (0,0), (1,0), (2,0), (0,1), (1,1), (2,1), in group order. |
| Groups.LastBlockExample | src/normal_game/group.rs:279-297 | The last 2x3 block is (3,4), (4,4), (5,4), (3,5), (4,5), (5,5), in group order. |
| Layout.InitialCellsLayout | src/normal_game/group.rs:181-186 | A fresh grid is row-major (cell `i` at `(i % side, i / side)`), unanswered, and every cell holds the whole alphabet. |
| Layout.RowMajorDistinct | src/normal_game/group.rs:138 | A row-major grid has distinct positions. |
| Layout.RowMajorFind | src/normal_game/group.rs:136-139 | Position `(x, y)` is found at cell `y * side + x`. |
| Layout.RowMajorCovers | src/normal_game/group.rs:136-139 | Every grid position has a cell, so the block builder's lookups succeed. |
| Layout.RowMajorColumn | src/normal_game/group.rs:93-97 | Column `x` of the grid is the cells `x, side + x, ..., (side - 1) * side + x`. |
| Layout.RowMajorRow | src/normal_game/group.rs:113-117 | Row `y` of the grid is the cells `y * side .. y * side + side`. |
| Layout.LineGroupsSize | src/normal_game/group.rs:188-230 | On a grid, every row group and every column group has `side` members. |
| Layout.RowMajorBlock | src/normal_game/group.rs:124-150 | On a grid, member `j` of block group `b` stands at the block's `j`-th position. |
| Layout.LineGroupsExample | src/normal_game/group.rs:188-230 | 2x3: column 0 runs (0,0)..(0,5), column 5 runs (5,0)..(5,5), row 0 runs (0,0)..(5,0) and row 5 runs (0,5)..(5,5). |
| Layout.ColumnGroupsExample | src/normal_game/group.rs:188-207 | 2x3: six column groups; the first holds cells 0, 6, ..., 30 and the last 5, 11, ..., 35. |
| Layout.RowGroupsExample | src/normal_game/group.rs:210-230 | 2x3: six row groups; the first holds cells 0..5 and the last 30..35. |
| Board.AnsweredCount | src/normal_game/remove_answer.rs:40 | The answered count never exceeds the number of cells. |
| Board.AnsweredCountUpdate | src/normal_game/remove_answer.rs:40 | Replacing one cell changes the count by the difference of what the old and the new cell contribute. |
| Board.AnsweredCountFull | src/solver.rs:61-66 | The count reaches the number of cells exactly when every cell is answered. |
| Board.CompleteMeans | src/solver.rs:61-66 | For a consistent game, the status is Complete exactly when every cell is answered and no group repeats an answer. |
| Board.FullGroupClear | src/normal_game/group.rs:52-67 | Pigeonhole: a fully answered group without repeats has an empty list. |
| Board.SolvingHasCandidate | src/solver.rs:73-84 | In a consistent game whose status is Solving, some unanswered cell has a candidate, so `cells[0]` after the filter exists. |
| Board.GameAnswer | src/solver.rs:131 | `NormalGame::set_answer` keeps positions and members, never loses an answer, and never lowers the count. |
| Board.GameAnswerKeeps | src/solver.rs:131 | Answering a symbol keeps the game consistent. The cell ends up with the symbol, or with its earlier answer if it had one. |
| Board.SetAnswerKeeps | src/solver.rs:131 | Answering an unanswered cell with a symbol and dropping it from the cell's groups keeps the invariant, with one answer more. |
| Board.AnsweredInUpdate | src/solver.rs:131 | After the answer, a group has `v` answered exactly when it had before, or it contains the cell and `v` is the new answer. |
| Board.Game.constructor | src/normal_game.rs:13-20 | A fresh game is consistent: a row-major grid of unanswered cells, the rows, columns and blocks, and a count of 0. |
| Board.NewConsistent | src/normal_game/group.rs:70-82 | The fresh cells with the groups `create_groups` builds satisfy the invariant. |
| Board.FreshGroupAt | src/normal_game/group.rs:70-82 | Every fresh group, line or block, is well formed over the fresh cells. |
| Board.Game.Clone | src/solver.rs:90 | The copy has the same setting, cells, groups and count, and is consistent. |
| Board.Game.SetAnswer | src/solver.rs:131 | The new state is `GameAnswer` of the old one at the cell found at `pos`, and the invariant still holds. |
| RemoveAnswer.FindGroups | src/normal_game/remove_answer.rs:44-49 | The result is exactly the groups with a member at `pos`, ascending by group index. |
| RemoveAnswer.FindGroupsFromPositions | src/normal_game/remove_answer.rs:34 | `find_groups` depends only on positions, so changing candidates does not change it. |
| RemoveAnswer.HasCellAtMember | src/normal_game/remove_answer.rs:47 | With distinct positions, a group has a member at cell `i`'s position exactly when `i` is a member. |
| RemoveAnswer.FindAnswerCandidateThatAllGroupsHold | src/normal_game/remove_answer.rs:51-68 | Sorting the concatenated lists and keeping each run as long as the number of groups yields `Common`. |
| RemoveAnswer.CommonMembers | src/normal_game/remove_answer.rs:51-68 | `Common` ascends and holds exactly the symbols that occur once per list in total. |
| RemoveAnswer.CommonIsIntersection | src/normal_game/remove_answer.rs:51-68 | With at least one list and no repeats inside a list, `Common` is exactly the intersection of the lists. |
| RemoveAnswer.CommonExample | src/normal_game/remove_answer.rs:117-127 | The lists [2,3,4], [2,3,4] and [2,4] give [2,4]. |
| RemoveAnswer.RunEnd | src/normal_game/remove_answer.rs:62 | The run of entries equal to `all[i]` ends at the first other value, or at the end. |
| RemoveAnswer.RunCount | src/normal_game/remove_answer.rs:60-63 | In a sorted list, a maximal run holds every occurrence of its value. |
| RemoveAnswer.ScanRun | src/normal_game/remove_answer.rs:62-65 | One round of the scan keeps the loop invariant and moves past the run. |
| RemoveAnswer.KeptStep | src/normal_game/remove_answer.rs:62-65 | Scanning a maximal run keeps its symbol exactly when the run is as long as there are lists. |
| RemoveAnswer.KeptAll | src/normal_game/remove_answer.rs:60-67 | Once every run is scanned, the kept symbols are `Common`. |
| RemoveAnswer.RemainingLists | src/normal_game/remove_answer.rs:55-59 | List `k` is the list of the `k`-th target group. |
| RemoveAnswer.RestoreGroups | src/normal_game/remove_answer.rs:17-19 | Restoring keeps every group's members. |
| RemoveAnswer.RestoreTargets | src/normal_game/remove_answer.rs:16-19 | The target groups get the symbol back; cells and count are unchanged. |
| RemoveAnswer.MemberPositionsHas | src/normal_game/remove_answer.rs:20-32 | Every member of a target group has its position collected. |
| RemoveAnswer.MemberPositionsIn | src/normal_game/remove_answer.rs:20-36 | Every collected position has a cell, so the lookup's `unwrap` succeeds. |
| RemoveAnswer.Recomputed | src/normal_game/remove_answer.rs:33-39 | Recomputing candidates keeps every cell's position. |
| RemoveAnswer.RecomputeCandidates | src/normal_game/remove_answer.rs:33-39 | Each cell at a collected position takes the common symbols of its own groups; groups and count stay. |
| RemoveAnswer.RecomputedCells | src/normal_game/remove_answer.rs:33-39 | The loop over the positions computes `Recomputed`. |
| RemoveAnswer.LookupStep | src/normal_game/remove_answer.rs:34-36 | Recomputed cells are found, and find their groups, as before. |
| RemoveAnswer.RecomputeStep | src/normal_game/remove_answer.rs:35-38 | One loop round extends the recomputation by one position. |
| RemoveAnswer.RemoveAnswerAt | src/normal_game/remove_answer.rs:9-42 | An unanswered cell gives None and changes nothing. Otherwise the result is the old answer and the count drops by one. The cleared cell is unanswered, and a symbol is among its new candidates exactly when every group containing it lists it. The invariant holds. |
| RemoveAnswer.UndoClearedCandidates | src/normal_game/remove_answer.rs:16-39 | For a cell in some group, its groups are found, the cell ends up unanswered, and its candidates are exactly the symbols that all of its groups list once the answer is back. |
| RemoveAnswer.UndoClearedCandidatesAll | src/normal_game/remove_answer.rs:16-39 | The same, for every group that has the cell as a member. |
| RemoveAnswer.UndoClearedCell | src/normal_game/remove_answer.rs:20-39 | The cleared cell's position is collected, so its candidates become the common symbols of its groups' restored lists. |
| RemoveAnswer.FindGroupsSameShape | src/normal_game/remove_answer.rs:34 | `find_groups` gives the same groups after any change that keeps positions and members. |
| RemoveAnswer.RemoveAnswerKeeps | src/normal_game/remove_answer.rs:9-42 | Undoing an answer keeps the game consistent with one answer fewer. |
| RemoveAnswer.ClearedOk | src/normal_game/remove_answer.rs:11 | The cleared cell, and every other cell, is still well formed. |
| RemoveAnswer.RestoredGroupOk | src/normal_game/remove_answer.rs:17-19 | A group that gets the symbol back did not list it (a member held it), so it still repeats nothing. |
| RemoveAnswer.RestoreOneGroupOk | src/normal_game/remove_answer.rs:17-19 | The same for one group, whether restored or not. |
| RemoveAnswer.RecomputedOk | src/normal_game/remove_answer.rs:33-39 | Recomputing candidates keeps every cell and group well formed. |
| RemoveAnswer.RecomputedInAlphabet | src/normal_game/remove_answer.rs:38 | Recomputed candidates are symbols of the alphabet. |
| Solve.EliminateIn | src/solver.rs:122-128 | Elimination in some groups keeps positions, members, answers and the count. |
| Solve.Eliminate | src/solver.rs:122-128 | `remove_group_answer_candidate` keeps positions, members, answers and the count. |
| Solve.EliminateEffect | src/solver.rs:122-128 | Afterwards a group with a member at `pos` lists exactly its old symbols minus `a`, and each of its members has exactly its old candidates minus `a`. |
| Solve.EliminateKeeps | src/solver.rs:122-128 | Elimination keeps the game consistent. |
| Solve.EliminateStep | src/solver.rs:126-127 | Handling one more matching group extends the elimination by that group's removal. |
| Solve.EliminateDone | src/solver.rs:124-127 | Handling every matching group is the whole elimination. |
| Solve.Solver.RemoveGroupAnswerCandidate | src/solver.rs:122-128 | The new state is `Eliminate` of the old one, and the invariant holds. |
| Solve.SolverAnswer | src/solver.rs:130-133 | `Solver::set_answer` keeps positions and members, loses no answer and never lowers the count. |
| Solve.SolverAnswerKeeps | src/solver.rs:130-133 | It keeps the game consistent and the cell ends up answered: with `a`, unless it already was. |
| Solve.SolverAnswerEffect | src/solver.rs:130-133 | Afterwards no group of the cell lists `a`, and no cell sharing such a group holds `a` as a candidate. |
| Solve.SolverAnswerElsewhere | src/solver.rs:130-133 | Answers of cells at other positions stay. |
| Solve.Solver.SetAnswer | src/solver.rs:130-133 | The new state is `SolverAnswer` of the old one, and the invariant holds. |
| Solve.ApplyAll | src/solver.rs:38-41 | Answering entries in order keeps positions and members, loses no answer and never lowers the count. |
| Solve.ApplyAllKeeps | src/solver.rs:38-41 | Answering entries that name cells and symbols keeps the game consistent. |
| Solve.ApplyAllAppend | src/solver.rs:143-146 | Answering `xs + ys` is answering `xs`, then `ys`. |
| Solve.ApplyAllAnswers | src/solver.rs:38-41 | Afterwards every cell named by an entry is answered. |
| Solve.ApplyAllOnce | src/solver.rs:38-41 | An unanswered cell named by exactly one entry takes that entry's symbol. |
| Solve.ApplyAllFirst | src/solver.rs:38-41 | An unanswered cell takes the symbol of the first entry that names it, whatever entries follow. |
| Solve.ApplyAllUpTo | src/solver.rs:38-41 | When the last entry is the first to name an unanswered cell, the cell takes its symbol. |
| Solve.ApplyAllElsewhere | src/solver.rs:38-41 | Entries at other positions leave a cell's answer alone. |
| Solve.ApplyAllNext | src/solver.rs:38-41 | Answering entry `k` after the first `k` answers the first `k + 1`. |
| Solve.Solver.SetAnswers | src/solver.rs:38-41 | The new state is `ApplyAll` of the old one over the entries, and the invariant holds. |
| Solve.NakedSinglesMembers | src/solver.rs:23-37 | An entry is a naked single exactly when some cell at its position has its symbol as the only candidate. |
| Solve.NakedSinglesAppend | src/solver.rs:23-37 | Naked singles follow cell order: those of `xs + ys` are those of `xs`, then those of `ys`. |
| Solve.NakedSinglesAnswerable | src/solver.rs:23-41 | The naked singles of a consistent game name cells and symbols, so answering them is safe. |
| Solve.NakedSinglesAnswered | src/solver.rs:23-41 | After a round's naked-singles step, every cell whose only candidate was `v` holds `v`. |
| Solve.AllLoneliesHas | src/solver.rs:137-142 | Every hidden single of every group is among the entries `fill_lonely` collects. |
| Solve.AllLoneliesAnswerable | src/solver.rs:137-142 | The collected hidden singles name cells and symbols. |
| Solve.Solver.FillLonely | src/solver.rs:136-147 | The hidden singles of all groups are collected before any answer, then answered in order (`ApplyAll`); the invariant holds. |
| Solve.FillLonelyAnswers | src/solver.rs:136-147 | After `fill_lonely`, a cell that alone in a group holds one of the group's remaining symbols is answered. Its answer is the symbol of the first collected entry naming it, so it is `v` whenever every entry naming the cell carries `v`. |
| Solve.FillLonelySingle | src/solver.rs:136-147 | A cell whose only candidate is `v`, and that alone holds `v` in one of its groups, is answered with `v`. |
| Solve.AllLoneliesFrom | src/solver.rs:137-142 | Every collected entry is a hidden single of one of the groups. |
| Solve.Fewest | src/solver.rs:73-84 | The guessed cell has candidates, no cell with candidates has fewer, and every earlier one has more (stable sort). |
| Solve.GuessCell | src/solver.rs:84-92 | The guessed cell is unanswered and found at its position, its candidates are symbols, and answering it raises the count. |
| Solve.Solver.constructor | src/solver.rs:12-14 | The solver owns the given game. |
| Solve.Solver.Solving | src/solver.rs:18-119 | The game stays consistent, keeps its cell positions, group members and answers. A returned game is a fresh copy with status Complete, consistent, with the same positions and members, and keeping every answer given. |
| Solve.Solver.Guess | src/solver.rs:73-106 | The game itself is not modified (the method may change nothing). A returned game is a fresh copy that is complete, consistent and keeps every answer. |
| Solve.Solver.TryGuess | src/solver.rs:87-96 | One try, which leaves the game as it is: a returned game is a fresh copy that is complete, consistent and keeps every answer. |
| Generator.Place | src/generator.rs:48 | The coordinate on the axis becomes `v`, and the other coordinate is kept. |
| Generator.Shift | src/generator.rs:116 | `move_y` / `move_x` by `move_count` is placing at the coordinate plus the shift, within `u8`. |
| Generator.SpanBands | src/generator.rs:28-31 | Bands have at least one line, and band count times lines per band is the side. |
| Generator.Draws | src/generator.rs:44-45 | One draw per entry: as many draws as entries. |
| Generator.DrawNext | src/generator.rs:44-45 | One `remove(random_index(len))` takes out the next draw and leaves the rest to draw. |
| Generator.DrawsPermutes | src/generator.rs:30-45 | The draws are a permutation of the list. |
| Generator.DrawsNoDup | src/generator.rs:30-45 | Drawing from a list without repeats repeats nothing. |
| Generator.DrawInRange | src/generator.rs:30-31 | A draw from `lo..hi` lies in that range. |
| Generator.DrawnAt | src/generator.rs:30-45 | Every entry of the list is drawn at some step. |
| Generator.LineTargetIs | src/generator.rs:28-49 | Line `v` is line `k` of band `b`, and it goes to the band's `k`-th draw. |
| Generator.LineTargetInBand | src/generator.rs:24-52 | A line shuffle keeps each line inside the grid and inside its own band. |
| Generator.LineTargetInjective | src/generator.rs:24-52 | No two lines get the same target. |
| Generator.LineTargetOnto | src/generator.rs:24-52 | Every line of the grid is some line's target. |
| Generator.LineTargetAt | src/generator.rs:43-49 | Line `k` of band `b` goes to the band's `k`-th draw. |
| Generator.BandTargetIn | src/generator.rs:82-119 | Band `b` moves to its drawn band, and each line keeps its place within the band. |
| Generator.BandTargetInjective | src/generator.rs:82-119 | No two lines get the same target under a band shuffle. |
| Generator.BandTargetOnto | src/generator.rs:82-119 | Every line is some line's target under a band shuffle. |
| Generator.BandDrawsDistinct | src/generator.rs:86-110 | Two bands never draw the same target band. |
| Generator.MoveCount | src/generator.rs:112-113 | Shifting line `b * span + k` by `(to - b) * span` lands on line `to * span + k`. |
| Generator.BandShift | src/generator.rs:112-116 | `move_count` shifts a line of band `b` exactly to its band-step target, inside the grid. |
| Generator.TargetOnto | src/generator.rs:24-156 | Each of the four steps hits every line of the grid. |
| Generator.TargetIn | src/generator.rs:24-156 | Each step sends grid lines to grid lines. |
| Generator.TargetInjective | src/generator.rs:24-156 | Each step sends different grid lines to different lines. |
| Generator.TargetBijective | src/generator.rs:24-156 | Each step permutes the lines `0..side` of its axis. |
| Generator.Moved | src/generator.rs:46-48 | A moved cell keeps its candidates and answer, takes its line's target on the axis, and keeps the other coordinate. |
| Generator.Relocate | src/generator.rs:24-156 | Every cell is moved by the step and nothing else changes. |
| Generator.StepKeepsLines | src/generator.rs:24-156 | Two cells share a line before a step exactly when they do after it. |
| Generator.StepKeepsBands | src/generator.rs:24-156 | Two cells share a band before a step exactly when they do after it. |
| Generator.LinesKeepBands | src/generator.rs:24-81 | Line shuffles map bands onto themselves. |
| Generator.BandsKeepBands | src/generator.rs:82-156 | Band shuffles map bands to bands. |
| Generator.RelocateOnGrid | src/generator.rs:24-156 | A step keeps every cell on the grid. |
| Generator.RelocateDistinct | src/generator.rs:24-156 | A step keeps positions distinct. |
| Generator.RelocateKeeps | src/generator.rs:24-156 | A step keeps the game consistent and on the grid: same answers, candidates and groups. |
| Generator.InitialOnGrid | src/generator.rs:166-170 | A fresh game's cells stand on the grid. |
| Generator.ShuffledAt | src/generator.rs:15-23 | A cell keeps candidates and answer. Its x goes through the column shuffle, then the column-band shuffle; its y through the row shuffle, then the row-band shuffle. |
| Generator.ShuffledKeeps | src/generator.rs:15-23 | The whole shuffle keeps a game consistent and on the grid. |
| Generator.MoveLine | src/generator.rs:46-49 | The listed cells move to coordinate `to` on the axis; the others stay. |
| Generator.ShiftLine | src/generator.rs:114-117 | The listed cells shift by `delta` on the axis; the others stay. |
| Generator.CollectLines | src/generator.rs:34-42 | List `j` holds exactly the cells on line `lo + j`, in arena order. |
| Generator.ShuffleBand | src/generator.rs:28-51 | The cells of band `b` move by the line step; all other cells stay. |
| Generator.MoveLines | src/generator.rs:43-50 | After the loop, every line of band `b` has moved to its draw and nothing else has moved. |
| Generator.MoveNextLine | src/generator.rs:44-49 | One round: the next target is drawn and line `k`'s cells move to it. |
| Generator.LineDrawNext | src/generator.rs:44-45 | Round `k` removes line `k`'s target from the indexes left. |
| Generator.LinesStart | src/generator.rs:30-31 | Before the loop, every line of the band is left to draw. |
| Generator.LineMovedStep | src/generator.rs:46-49 | Moving line `k`'s cells to its draw moves one more line. |
| Generator.BandMoved | src/generator.rs:43-50 | With all its lines moved, exactly the cells of band `b` have moved. |
| Generator.ShuffleLines | src/generator.rs:24-81 | `shuffle_rows` / `shuffle_cols`: the cells become `Relocate` of the old cells by the line step; groups and count stay. |
| Generator.LinesBandStep | src/generator.rs:28-51 | Shuffling band `b` adds it to the bands done. |
| Generator.DoneAll | src/generator.rs:28-51 | Once every band is done, every cell has moved by the step. |
| Generator.FlattenSelect | src/generator.rs:91-104 | The concatenated line lists name each cell of those lines exactly once. |
| Generator.BandListOf | src/generator.rs:104 | `inner_lines.concat()` lists each cell of band `b` exactly once, and nothing else. |
| Generator.CollectBands | src/generator.rs:88-105 | For each band, the cells of its lines are listed in line order. |
| Generator.BandShiftReady | src/generator.rs:108-117 | Before band `b` moves, its cells are where they started, and their shifts stay in `u8`. |
| Generator.BandsBandStep | src/generator.rs:108-117 | Shifting band `b`'s cells by `move_count` adds it to the bands done. |
| Generator.BandDrawNext | src/generator.rs:109-110 | Round `b` removes band `b`'s draw from the bands left. |
| Generator.MoveNextBand | src/generator.rs:109-117 | One round: band `b` draws its target and its cells shift by the band step. |
| Generator.BandsShuffled | src/generator.rs:82-156 | The band loops compute `Relocate` by the band step. |
| Generator.ShuffleBands | src/generator.rs:82-156 | `shuffle_row_blocks` / `shuffle_col_blocks`: the cells become `Relocate` by the band step; groups and count stay. |
| Generator.ShuffleManualy | src/generator.rs:15-23 | The cells become `Shuffled` (columns, rows, row bands, column bands). A consistent game on the grid stays so. |
| Generator.DrawsLast | src/generator.rs:171 | With `\|len\| len - 1`, the draws come out back to front. |
| Generator.LineTargetLast | src/generator.rs:171 | With it, line `k` of a band goes to line `span - 1 - k` of the same band. |
| Generator.BandTargetLast | src/generator.rs:191 | With it, band `b` goes to band `count - 1 - b`, and each line keeps its place in the band. |
| Generator.LinesThenBandsLast | src/generator.rs:217 | With it, the line step and then the band step send line `v` to `side - 1 - v`. |
| Generator.ShuffledLast | src/generator.rs:210-222 | With it, `shuffle_manualy` turns the grid half a turn: `(x, y)` goes to `(side - 1 - x, side - 1 - y)`. |
| Generator.LinesExample | src/generator.rs:164-183 | 2x2: lines 0, 1, 2, 3 go to 1, 0, 3, 2, which turns `1234\|3412\|2143\|4321` into `3412\|1234\|4321\|2143` by rows and `2143\|4321\|1234\|3412` by columns. |
| Generator.BandsExample | src/generator.rs:184-209 | 2x3 row bands and 3x2 column bands: lines 0..6 go to 4, 5, 2, 3, 0, 1. |
| Pattern.TemplateRows | src/pattern.rs:31-48 | A template exists exactly for the fifteen listed sizes (`TemplateSizes`), so every other pair such as 1x4 or 3x1 gets None. A template has `h * w` rows, with `3 <= h * w <= 25`. |
| Pattern.Template | src/pattern.rs:5-19 | The template string exists exactly when the rows do, and it is the rows spelled with `,` and `\|`. |
| Pattern.Spaced | src/pattern.rs:5-19 | A row of `n` letters is spelled in `2n - 1` characters. |
| Pattern.LetterAt | src/pattern.rs:20-23 | `PATTERN_CHARS` has 25 letters, and letter `i` is the `i`-th of the alphabet. |
| Pattern.Decimal | src/pattern.rs:53 | `to_string` gives at least one character, all of them digits. |
| Pattern.DecimalRoundTrip | src/pattern.rs:53 | Reading the digits back gives the number. |
| Pattern.DecimalInjective | src/pattern.rs:53 | Different numbers are written differently. |
| Pattern.ReplaceAbsent | src/pattern.rs:53 | `replace` leaves a text without the letter unchanged. |
| Pattern.ReplaceRemoves | src/pattern.rs:53 | After `replace`, the letter is gone unless the replacement writes it. |
| Pattern.ReplaceAppend | src/pattern.rs:53 | `replace` works piecewise over a concatenation. |
| Pattern.Zipped | src/pattern.rs:50 | The `zip` pairs `min(len, 25)` letters. |
| Pattern.RelabelNone | src/pattern.rs:51 | Before the loop the text is the template. |
| Pattern.RelabelStep | src/pattern.rs:52-54 | Replacing letter `k` in a text whose first `k` letters are relabelled relabels letter `k` too. Earlier replacements wrote only digits, which this one does not touch. |
| Pattern.RelabelCharStep | src/pattern.rs:53 | The same step for one character of the template. |
| Pattern.RelabelLetters | src/pattern.rs:50-54 | The loop relabels exactly the paired letters; the other characters are left unchanged. |
| Pattern.CreateSolvedStringFromPattern | src/pattern.rs:26-56 | None exactly for sizes without a template. Otherwise the template with every paired letter replaced by its symbol's decimal form. |
| Pattern.RelabelDistinct | src/pattern.rs:50-54 | With an alphabet without repeats, two relabelled characters are equal exactly when the letters were, so a solved template stays solved. |
| Pattern.RelabelChars | src/pattern.rs:50-54 | Every character of the result is a digit or a character of the template that was not relabelled. |

## Left out

- Console output: the solver's `println!` tracing (`src/solver.rs`) and the text forms `load`, `to_string` and `to_string_with_comma` are not modelled. The test grids are stated as where lines, bands and cells go, not as text.
- `shuffle` and its test: `thread_rng` is nondeterministic. The model takes the index function as a parameter `ri` instead, and `Generator.Picks` states that `ri(len) < len`, as `Vec::remove` demands.
- Generator.Draws: the index depends only on the length of the list drawn from. Every draw from a list of the same length, in any band and in any of the four passes, takes the same index. The model therefore covers only the shuffles that such a fixed length-to-index map produces, a subset of what independent `thread_rng` draws reach. The proved properties hold for every such map, including the `|len| len - 1` of the tests.
- `patternify` in the tests of `src/pattern.rs` and the ignored `create_2x3` test, which needs a full solve: neither is modelled.
- The literal 2x3 relabelling example (`src/pattern.rs:91-103`) is not restated. `Pattern.CreateSolvedStringFromPattern` with `Pattern.RelabelChars` and `Pattern.RelabelDistinct` state the general rule.
- Pattern.TemplateRows: all fifteen templates of `src/pattern.rs:5-19` are written out as rows of letters, but the contract states only their number of rows. Whether each template is a Latin square whose blocks also hold every letter once is not proved.
- The solver's literal 1x2 `"12|21"` solve and 9x9 solve (`src/solver.rs:199-227`) are not restated. They rely on `load`, which is not part of this model.
- The 1x3 `fill_lonely` example (`src/solver.rs:164-189`) builds a game with the constructor and answers two cells. It is not restated as a concrete nine-cell state. `Solve.FillLonelySingle` states its rule for every game: cell (1,0) has the single candidate 2 and alone holds 2 in its row, so `fill_lonely` answers it with 2. It does so even though the row and the block both report it.
- The `remove_answer` tests' literal grids (`src/normal_game/remove_answer.rs:145-228`) also rely on `load` and are not restated. `RemoveAnswer.RemoveAnswerAt` and `RemoveAnswer.UndoClearedCandidates` state the rule they check, namely that the cleared cell gets back exactly the symbols that every group it belongs to lists (in a game built by the constructor, its row, column and block).
- Solve.Solver.Solving: states what a returned game satisfies and that the solver's own game stays consistent. It does not say which of several completions is returned, nor that None means the game has no solution. The source promises neither.
- Solve.Solver.Guess: does not state that the first successful candidate wins. It follows from the body's early return, but no contract states it.
- Board.Game.SetAnswer: requires the symbol to be in `1..=side` and the game to be consistent. The source does not check either, but every call site passes a candidate of a consistent game.
- `src/core/entity/game.ts`: its behaviour lives in modules not part of this model, so it is a thin wrapper.
- `src/game.rs`, `src/game/setting.rs` and `src/lib.rs`: they are a superseded copy of the first `NormalGame` constructor. `src/lib.rs` has only an arithmetic test.
- `Rc`/`RefCell` sharing is replaced by the arena. Aliasing between a group's cell and the game's cell becomes "the same id".
- Integer widths: coordinates and symbols are `u8`, and `move_count` is `i16`. The model requires `h * w <= 255` (`Setting.Fits`), and `Cells.MoveX`, `Cells.MoveY` and `Generator.Shift` require the shifted coordinate to stay in `0..=255`. Overflow is therefore excluded rather than modelled.
- Zero-sized blocks: `Setting.Usable` requires `h, w >= 1` for every grid operation. With a zero dimension the source builds an empty grid, and the model does not cover it.
