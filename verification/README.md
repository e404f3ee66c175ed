# kairem-xtower puzzle core in Dafny

This project models the core of the kairem-xtower puzzle engine and of its web front end. The puzzle is a 5×5 grid (the general engine allows any size N). Each cell carries one of nine colours. A player checks cells. A board is solved when every cell's colour rule holds and at least one row, column or diagonal is fully checked (a "bingo").

Engine, `crates/engine`:
- `colors.rs`: the nine colours and their byte codes (module `Colors`).
- `masks.rs`: the 25-bit cell masks of the 5×5 board, with popcount as set size (`Masks`).
- `validate.rs`: the per-cell rule check of a finished board (`Rules`, `Validate`).
- `solver/state.rs`: the three-valued board with its row, column and diagonal counters (`Lines`, `Board`).
- The rule index, built once per puzzle:
  - the decision order (`Ordering`);
  - neighbour lists (`Neighbors`);
  - colour buckets (`RuleIndex`).
- `solver/mod.rs`:
  - the eight colour inference rules and the propagation to a fixpoint (`Fill`, `Puzzle`, `Steps`, `Propagate`);
  - the backtracking search that enumerates solutions up to a limit (`Search`);
  - the human-style analysis behind the difficulty estimate: propagation rounds, single-step proof by contradiction, forced cells (`Analysis`).
- `solver.rs`: the 5×5 bitmask solver with its incremental counters and prunes (`BitSolver`).
- The two solvers and `validate_state` state one rule set. On the 5×5 grid, the propagation engine reads the rules through its index of neighbour and line lists, and the bitmask solver and `validate_state` read them through the fixed masks. Both readings accept the same masks, so both solvers list exactly what the brute-force test of `solver/mod.rs` accepts (`Agreement`).
- `difficulty.rs`: the integer parts of the difficulty score and its report (`Difficulty`).
- `date_seed.rs`: the daily seed derived from a `YYYY-MM-DD` date (`DateSeed`, `Calendar`, `Text`).

Web helpers, `apps/web/src/lib`:
- `progress.js`: the progress keys and the normalisation of stored records (`Progress`).
- `level-code.js`: the shareable level code, which is unpadded base64url of the packed colour bytes as in section 5 of RFC 4648 (`Base64`, `LevelCode`).
- `stats.js`: the statistics page, covering the reset filter, the daily streak, per-kind totals, the daily trend and best records (`Stats`, `Ymd`).
- `marks.js`, `tutorial.js`, `ui-prefs.js`: per-cell marks, the tutorial dismissal time and boolean UI flags (`Marks`, `Tutorial`, `UiPrefs`).
- `seo/url.js`: site URL normalisation, robots.txt and sitemap XML (`SeoUrl`).

Everything is modelled with immutable datatypes and pure functions, apart from a few loop methods. The mutable solver state is a value, and each setter returns the new state together with its outcome.

Modelling choices:
- Bitmasks are sets of bit positions.
- Integers are unbounded. The source's fixed widths never wrap on the boards it accepts.
- `find_forced_by_contradiction` (`solver/mod.rs`) scans every unknown decision cell without stopping and keeps the first forced one; `Analysis.ScanFrom` and `Analysis.FindForced` do the same.
- Each operation is paired with one of:
  - its inverse, such as decoding a level code or reading the rendered sitemap back;
  - an invariant it keeps, such as the counters equalling exact counts;
  - an independent reference definition, such as the set of all solutions of a puzzle or the reference count of solved entries.

Some host facilities are parameters:
- `UrlLib` stands for the WHATWG URL parser (origin and resolution).
- The storage objects of the web helpers are values.
- The JavaScript `Date` arithmetic is modelled by the proleptic Gregorian calendar.

## Model

| member | source | states |
|---|---|---|
| Colors.ToU8 | crates/engine/src/colors.rs:36-38 | the byte of a colour is below COLOR_COUNT and names that colour in declaration order |
| Colors.FromU8 | crates/engine/src/colors.rs:21-34 | a byte decodes exactly when it is at most 8, and then to the colour declared at that position |
| Colors.FromToU8 | crates/engine/src/colors.rs:21-38 | decoding the byte of a colour gives the colour back |
| Colors.ToFromU8 | crates/engine/src/colors.rs:21-38 | encoding a decoded byte gives the byte back |
| Colors.ColorCodesDistinct | crates/engine/src/colors.rs:8-18 | two colours share a code exactly when they are the same colour |
| Colors.NonWhiteColorsExact | crates/engine/src/colors.rs:41-50 | NON_WHITE_COLORS holds eight distinct colours, every colour but White |
| Colors.DecodeGrid | crates/engine/src/validate.rs:36-39 | a grid decodes exactly when every byte is a colour code, each colour re-encoding to its byte; otherwise the error names the first bad index |
| Masks.CellIndex | crates/engine/src/masks.rs:11-13 | a cell index on the 5x5 board is below CELL_COUNT |
| Masks.CellIndexRoundTrip | crates/engine/src/masks.rs:11-13 | quotient and remainder by the grid size give back the row and column |
| Masks.CellIndexInjective | crates/engine/src/masks.rs:11-13 | two positions share an index exactly when they are equal |
| Masks.CellIndexOf | crates/engine/src/masks.rs:11-13 | every index below CELL_COUNT is the index of its row and column |
| Masks.CellBit | crates/engine/src/masks.rs:16-18 | the bit of a cell is the one-element mask holding it |
| Masks.Neighbors8Exact | crates/engine/src/masks.rs:20-37 | NEIGHBORS_8 of a cell holds exactly the other on-board cells at king distance one |
| Masks.Neighbors8Symmetric | crates/engine/src/masks.rs:20-37 | no cell neighbours itself, and the 8-neighbour relation is symmetric |
| Masks.Neighbors8Count | crates/engine/src/masks.rs:20-37 | an 8-neighbourhood has 3 cells at a corner, 5 on an edge and 8 inside |
| Masks.Neighbors4Exact | crates/engine/src/masks.rs:39-60 | NEIGHBORS_4 of a cell holds exactly the on-board cells one step up, down, left or right |
| Masks.Neighbors4Within8 | crates/engine/src/masks.rs:20-60 | every 4-neighbour is an 8-neighbour, and the 4-neighbour relation is symmetric |
| Masks.InRowMask | crates/engine/src/masks.rs:62-72 | ROW_MASKS[r] holds exactly the cells of row r |
| Masks.InColMask | crates/engine/src/masks.rs:74-84 | COL_MASKS[c] holds exactly the cells of column c |
| Masks.RowColCard | crates/engine/src/masks.rs:62-84 | every row and column mask has five cells |
| Masks.InDiagDownMask | crates/engine/src/masks.rs:86-95 | DIAG_DOWN_MASKS[d] holds exactly the cells with x + 4 - y == d |
| Masks.InDiagUpMask | crates/engine/src/masks.rs:97-106 | DIAG_UP_MASKS[d] holds exactly the cells with x + y == d |
| Masks.DiagCard | crates/engine/src/masks.rs:86-106 | diagonal bucket d holds 5 - \|d - 4\| cells in both directions |
| Masks.PartitionsCoverBoard | crates/engine/src/masks.rs:62-106 | each cell lies in exactly one row, one column, one down- and one up-diagonal mask |
| Masks.LineMasks | crates/engine/src/masks.rs:108-126 | LINE_MASKS has LINE_COUNT entries |
| Masks.LineMasksShape | crates/engine/src/masks.rs:108-126 | each winning line holds five on-board cells |
| Masks.PopcountSplit | crates/engine/src/masks.rs:5-8 | the popcount of a mask over two disjoint masks is the sum of the two popcounts |
| Rules.CountLines | crates/engine/src/solver.rs:112-126 | the popcount tables have five row, five column and nine entries per diagonal direction |
| Rules.CellPassesIsRule | crates/engine/src/solver.rs:128-175 | a cell passes its match arm in check_all_rules exactly when its colour rule holds on the mask |
| Rules.ScanCells | crates/engine/src/solver.rs:128-178 | the cell scan from cell i succeeds exactly when every later cell keeps its colour rule |
| Rules.CheckAllRules | crates/engine/src/solver.rs:111-179 | check_all_rules accepts a mask exactly when every cell's colour rule holds |
| Rules.AnyLineFull | crates/engine/src/solver.rs:107-109 | the scan from line k finds a line exactly when one of the lines from k on is fully checked |
| Rules.HasFiveInARow | crates/engine/src/solver.rs:107-109 | has_five_in_a_row holds exactly when some row, column or either diagonal is fully checked |
| Validate.CellVerdictIsRule | crates/engine/src/validate.rs:60-164 | a cell gets no message exactly when its colour rule holds |
| Validate.ValidateState | crates/engine/src/validate.rs:28-176 | a grid that is not 25 long gives BadGridLength; otherwise the first non-colour byte gives BadColor with its index and value; otherwise each cell_ok is the cell's colour rule, a message appears exactly when a cell fails, is_valid means every rule holds and is_bingo means a line is fully checked |
| Validate.AllTrue | crates/engine/src/validate.rs:167 | the fold is true exactly when every element is |
| Validate.IsValidAgreesWithCheckAllRules | crates/engine/src/validate.rs:167-168 | on a 25-colour grid, validate_state's is_valid and is_bingo agree with the solver's check_all_rules and has_five_in_a_row |
| Lines.IdDecode | crates/engine/src/solver/state.rs:97-100 | id_to_rc undoes cell_id: quotient and remainder by the size give back row and column |
| Lines.IdBound | crates/engine/src/solver/mod.rs:8-11 | a cell id of an on-board cell is below size * size |
| Lines.IdSplit | crates/engine/src/solver/state.rs:97-100 | every id below size * size splits into an on-board row and column whose cell_id is that id |
| Lines.IdToRc | crates/engine/src/solver/state.rs:97-100 | id_to_rc of an id below size * size is an on-board row and column whose cell_id is that id |
| Lines.IdInjective | crates/engine/src/solver/mod.rs:8-11 | two cells share an id exactly when they share row and column |
| Lines.LineLength | crates/engine/src/solver/state.rs:44-52 | rows and columns have size cells and diagonal d has size - \|d - (size - 1)\| |
| Lines.InLine | crates/engine/src/solver/state.rs:87-95 | a board cell lies on line k of a family exactly when its row, column, row + size - 1 - col or row + col is k |
| Lines.InStraightLine | crates/engine/src/solver/state.rs:103-110 | a cell is on row k (column k) exactly when its row (column) is k |
| Lines.InDiagonal | crates/engine/src/solver/mod.rs:102-110 | a cell is in diagonal bucket k exactly when its diagonal id is k, and that id is in range |
| Lines.LineWellFormed | crates/engine/src/solver/mod.rs:102-110 | every id on a line is on the board and no line lists a cell twice |
| Board.New | crates/engine/src/solver/state.rs:37-71 | a new state is valid, of the given size, has every cell unknown and nothing decided |
| Board.BlankIsValid | crates/engine/src/solver/state.rs:37-71 | empty views, zero counters and diagonal lengths size - \|d - (size - 1)\| make a valid all-unknown state |
| Board.Assign | crates/engine/src/solver/state.rs:149-158 | writing an unknown cell keeps the views and counters consistent, changes that cell only and decides one more cell |
| Board.AssignPointwise | crates/engine/src/solver/state.rs:149-150 | updating the row views at (r, c) changes the value of that cell only |
| Board.GetAfterAssign | crates/engine/src/solver/state.rs:103-115 | after the write, (r, c) reads the new value and every other cell reads as before |
| Board.Get | crates/engine/src/solver/state.rs:102-115 | on a board whose row and column views agree, a cell on the board reads checked exactly when its column view has it checked, and unchecked likewise; a cell off the board, where the source panics, is read as unknown |
| Board.GetId | crates/engine/src/solver/state.rs:97-133 | on a board whose views agree, an id below size * size reads checked exactly when the column view of its column holds its row, and unchecked likewise; an id past the last cell, where the source panics, is read as unknown |
| Board.AssignCounters | crates/engine/src/solver/state.rs:152-157 | bumping the four counters through (r, c) keeps every counter equal to its line's count |
| Board.CountAfterAssign | crates/engine/src/solver/state.rs:152-157 | writing v into an unknown cell moves one unit of each line through it from unknown to v |
| Board.SumBump | crates/engine/src/solver/state.rs:152 | incrementing one counter raises the row total by one |
| Board.SetChecked | crates/engine/src/solver/state.rs:140-160 | set_checked fails exactly on an unchecked cell; otherwise it reports a change exactly when the cell was unknown, leaves an already checked state as it was, and sets only that cell |
| Board.SetUnchecked | crates/engine/src/solver/state.rs:167-187 | set_unchecked fails exactly on a checked cell; otherwise it reports a change exactly when the cell was unknown and sets only that cell |
| Board.SetId | crates/engine/src/solver/state.rs:189-199 | the id setters fail exactly on the opposite value and otherwise set only the cell at id_to_rc(id) |
| Board.CountSplit | crates/engine/src/solver/state.rs:22-33 | the checked, unchecked and unknown counts of a line add up to its length |
| Board.CompletionCount | crates/engine/src/solver/state.rs:201-231 | every completion checks at least the confirmed-checked cells of a line and at most all but the confirmed-unchecked ones; at either bound all unknown cells go the same way |
| Board.CountDecided | crates/engine/src/solver/state.rs:201-231 | on a line without unknown cells the minimum and maximum coincide with the completion's count |
| Board.MinMax | crates/engine/src/solver/state.rs:201-231 | the min is the checked count, the max is the length minus the unchecked count, min <= max, and every completion's count lies between them |
| Board.LowBits | crates/engine/src/solver/state.rs:78-85 | valid_mask holds exactly the positions below size (all 32 when size is 32) |
| Board.UnknownColsInRow | crates/engine/src/solver/state.rs:233-237 | the mask holds exactly the on-board columns whose cell in row r is unknown |
| Board.UnknownRowsInCol | crates/engine/src/solver/state.rs:239-243 | the mask holds exactly the on-board rows whose cell in column c is unknown |
| Board.IsFullyDecided | crates/engine/src/solver/state.rs:245-255 | is_fully_decided holds exactly when no cell is unknown |
| Board.RowsDecidedFrom | crates/engine/src/solver/state.rs:248-254 | the row loop from r succeeds exactly when no cell in rows r and below is unknown |
| Board.RowDecided | crates/engine/src/solver/state.rs:249-252 | a row's decided bits cover valid_mask exactly when none of its cells is unknown |
| Board.ToRowMajorMask | crates/engine/src/solver/state.rs:275-293 | bit row * size + col is set exactly for the checked cells; on a full board this mask is the one and only completion |
| Board.FullCompletion | crates/engine/src/solver/state.rs:275-293 | on a full board the set of checked cells completes it and no other set does |
| Board.RowMajorMember | crates/engine/src/solver/state.rs:283-291 | the loop from row r sets exactly the checked cells of rows r and below |
| Board.RowBitsMember | crates/engine/src/solver/state.rs:284-290 | one row's pass sets exactly that row's checked cells |
| Board.Canonical | crates/engine/src/solver/state.rs:10-34 | a valid state is determined by its size and the value of every cell, which justifies comparing states in place of hash64 |
| Board.ExtendsShrinks | crates/engine/src/solver/state.rs:140-187 | a state that keeps every decided value and differs from the original has fewer unknown cells |
| Board.ExtendsTrans | crates/engine/src/solver/state.rs:140-187 | extending a state is transitive |
| Board.CompletesBack | crates/engine/src/solver/state.rs:140-187 | a completion of an extension is a completion of the original |
| Ordering.ColorWeight | crates/engine/src/solver/mod.rs:117-126 | the colour weight lies between 10 and 100 and is 10 exactly for the colours without a listed weight |
| Ordering.Insert | crates/engine/src/solver/mod.rs:115-128 | inserting an id adds exactly that id to the list |
| Ordering.InsertSorted | crates/engine/src/solver/mod.rs:115-128 | inserting an id larger than every listed id after its equal-key peers keeps the list sorted by key, ties by id |
| Ordering.SortByKey | crates/engine/src/solver/mod.rs:115-128 | sort_by_key returns a permutation of its input |
| Ordering.SortInto | crates/engine/src/solver/mod.rs:115-128 | inserting a list into an accumulator gives a permutation of both together |
| Ordering.SortByKeySorted | crates/engine/src/solver/mod.rs:115-128 | the stable sort of an ascending list is ordered by key, ties by ascending id |
| Ordering.SortIntoSorted | crates/engine/src/solver/mod.rs:115-128 | inserting ascending ids into a key-sorted accumulator of smaller ids keeps it key-sorted |
| Ordering.KeySortedUnique | crates/engine/src/solver/mod.rs:115-128 | two key-sorted permutations of the same ids are equal, so the decision order is fully determined |
| Ordering.SortedHeadsAgree | crates/engine/src/solver/mod.rs:115-128 | two key-sorted permutations of the same ids start with the same id |
| Neighbors.Nbr8FromMembers | crates/engine/src/solver/mod.rs:73-85 | the offset scan from offset k lists exactly the on-board king moves at offsets k and later |
| Neighbors.Nbr8Exact | crates/engine/src/solver/mod.rs:73-85 | neighbors8 of (r, c) lists exactly the on-board king moves, each once and on the board |
| Neighbors.Nbr8FromDistinct | crates/engine/src/solver/mod.rs:73-85 | the offset scan lists no cell twice |
| Neighbors.Adjacent8Symmetric | crates/engine/src/solver/mod.rs:73-82 | a king move read back from the other cell is a king move |
| Neighbors.Nbr8Member | crates/engine/src/solver/mod.rs:73-85 | a cell is in neighbors8 of (r, c) exactly when it is a king move away |
| Neighbors.Nbr8 | crates/engine/src/solver/mod.rs:73-85 | the 8-neighbour list of an on-board cell holds exactly its on-board king moves, each on the board and none twice |
| Neighbors.Nbr4 | crates/engine/src/solver/mod.rs:87-98 | the 4-neighbour list of an on-board cell holds exactly its on-board rook steps, each on the board and none twice |
| Neighbors.Nbr4Member | crates/engine/src/solver/mod.rs:87-98 | a cell is in neighbors4 of (r, c) exactly when it is one rook step away |
| Neighbors.Nbr4Exact | crates/engine/src/solver/mod.rs:87-98 | neighbors4 of (r, c) lists exactly the on-board rook steps, each once and on the board |
| Neighbors.Nbr4Bounded | crates/engine/src/solver/mod.rs:87-98 | every 4-neighbour id is on the board |
| Neighbors.Nbr4Distinct | crates/engine/src/solver/mod.rs:87-98 | no 4-neighbour is listed twice |
| Neighbors.Table8 | crates/engine/src/solver/mod.rs:66-100 | the 8-neighbour table has one list per cell |
| Neighbors.Table4 | crates/engine/src/solver/mod.rs:66-100 | the 4-neighbour table has one list per cell |
| RuleIndex.CellsOf | crates/engine/src/solver/mod.rs:52-64 | the list holds exactly the ids from lo on with (or without) the colour, ascending |
| RuleIndex.DiagTable | crates/engine/src/solver/mod.rs:102-110 | there are 2 * size - 1 buckets in each direction |
| RuleIndex.New | crates/engine/src/solver/mod.rs:36-146 | RuleSet::new keeps size and colours, has one neighbour list per cell and 2 * size - 1 diagonal buckets, and is built and well formed |
| RuleIndex.ColorCellsExact | crates/engine/src/solver/mod.rs:52-64 | each colour list holds exactly the cells of that colour, ascending; White cells are not listed |
| RuleIndex.BuiltWellFormed | crates/engine/src/solver/mod.rs:36-146 | the index RuleSet::new builds satisfies every structural fact the propagators rely on |
| RuleIndex.IndexedWellFormed | crates/engine/src/solver/mod.rs:36-146 | colour lists, neighbour lists and buckets as built, plus a decision order of the non-Black cells, make a well-formed index |
| RuleIndex.IndexedNeighbours | crates/engine/src/solver/mod.rs:66-100 | every neighbour id is on the board and no list repeats a cell |
| RuleIndex.IndexedColors | crates/engine/src/solver/mod.rs:52-64 | every colour list names cells of its colour, and every non-White cell is on its colour's list |
| RuleIndex.NeighborsAt | crates/engine/src/solver/mod.rs:66-100 | the neighbour lists at an id are those of its row and column |
| RuleIndex.Coordinates | crates/engine/src/solver/mod.rs:69-71 | every id is the cell_id of an on-board row and column |
| RuleIndex.Nbr8AtSymmetric | crates/engine/src/solver/mod.rs:73-85 | 8-adjacency between ids is symmetric |
| RuleIndex.Nbr8AtIrreflexive | crates/engine/src/solver/mod.rs:75-77 | no cell is its own 8-neighbour |
| RuleIndex.Nbr4Cases | crates/engine/src/solver/mod.rs:87-98 | each entry of a 4-neighbour list is one of the four rook steps |
| RuleIndex.Nbr4AtWithin8 | crates/engine/src/solver/mod.rs:66-100 | every 4-neighbour is an 8-neighbour |
| RuleIndex.Neighbors8Symmetric | crates/engine/src/solver/mod.rs:66-100 | in the built index, b neighbours a exactly when a neighbours b, and no cell neighbours itself |
| RuleIndex.Neighbors4Within8 | crates/engine/src/solver/mod.rs:66-100 | in the built index, every 4-neighbour is an 8-neighbour |
| RuleIndex.DiagBuckets | crates/engine/src/solver/mod.rs:102-110 | cell (r, c) lies in down bucket r + size - 1 - c and up bucket r + c, and in no other |
| RuleIndex.DecisionOrder | crates/engine/src/solver/mod.rs:112-128 | the decision order is a permutation of the non-Black cells, holding each exactly once, sorted by -(colour weight + degree) with ties by ascending id as the stable sort leaves them |
| RuleIndex.SameMembers | crates/engine/src/solver/mod.rs:112-114 | any reordering of the non-Black cells holds exactly the non-Black cells |
| RuleIndex.DecisionOrderExact | crates/engine/src/solver/mod.rs:112-128 | the built decision order is key-sorted and lists every non-Black cell once |
| Fill.FilledSet | crates/engine/src/solver/mod.rs:1150-1162 | setting one unknown cell and then filling the rest fills the whole list |
| Fill.FilledSkip | crates/engine/src/solver/mod.rs:1151-1153 | a cell already decided is skipped |
| Fill.FilledExtends | crates/engine/src/solver/mod.rs:1144-1164 | filling leaves every decided cell as it was |
| Fill.GetIdAt | crates/engine/src/solver/state.rs:118-133 | the id readers agree with the (row, col) readers |
| Fill.FillCells | crates/engine/src/solver/mod.rs:1144-1164 | fill_cells_unknowns_as never fails, keeps the state valid, and sets exactly the unknown listed cells to the value |
| Fill.FillRow | crates/engine/src/solver/mod.rs:1098-1119 | fill_row_unknowns_as never fails, keeps the state valid, and sets exactly the unknown cells of the row |
| Fill.FillRowFrom | crates/engine/src/solver/mod.rs:1104-1117 | walking the unknown-column mask from column c up sets exactly the unknown cells of the row from c on |
| Fill.RowUnchangedBeyond | crates/engine/src/solver/mod.rs:1104-1107 | setting a cell of the row leaves the cells to its right as they were, so the mask taken once stays correct |
| Fill.FillCol | crates/engine/src/solver/mod.rs:1121-1142 | fill_col_unknowns_as never fails, keeps the state valid, and sets exactly the unknown cells of the column |
| Fill.FillColFrom | crates/engine/src/solver/mod.rs:1127-1140 | walking the unknown-row mask from row r down sets exactly the unknown cells of the column from r on |
| Fill.ColUnchangedBeyond | crates/engine/src/solver/mod.rs:1127-1130 | setting a cell of the column leaves the cells below it as they were |
| Fill.ScanIds | crates/engine/src/solver/mod.rs:821-853 | one pass over a list counts its checked and unknown cells and remembers an unknown one, the only one when there is exactly one |
| Fill.CountZero | crates/engine/src/solver/state.rs:22-33 | a value counted zero times does not occur in the list |
| Fill.CountInOneUnknown | crates/engine/src/solver/mod.rs:821-853 | with a single unknown cell x, a completion checks the checked cells plus x when it takes x |
| Puzzle.SegCellOnBoard | crates/engine/src/solver/mod.rs:1167-1239 | every cell of an on-board segment lies on the board |
| Puzzle.Pairs | crates/engine/src/solver/mod.rs:1175-1176 | the nested loop visits each (i, j) with i < a and j < b once |
| Puzzle.Tag | crates/engine/src/solver/mod.rs:1175-1236 | each loop position becomes the segment of its direction and start |
| Puzzle.InTag | crates/engine/src/solver/mod.rs:1175-1236 | a segment is produced by a loop exactly when its start is among that loop's positions |
| Puzzle.SegmentsExact | crates/engine/src/solver/mod.rs:1167-1239 | the four loops enumerate exactly the on-board five-cell segments |
| Puzzle.SegmentCount | crates/engine/src/solver/mod.rs:1241-1354 | there are 2n(n - 4) straight and 2(n - 4)^2 diagonal segments, and none below size 5 |
| Puzzle.FiveInARowPossible | crates/engine/src/solver/mod.rs:1167-1239 | five_in_a_row_possible holds exactly when some on-board segment has no unchecked cell |
| Puzzle.OpenOnBoard | crates/engine/src/solver/mod.rs:1167-1239 | the scan finds an open segment exactly when an open on-board segment exists |
| Puzzle.AnyOpen | crates/engine/src/solver/mod.rs:1175-1188 | the scan of a segment list finds one exactly when one of them is open |
| Puzzle.Stats | crates/engine/src/solver/mod.rs:1241-1355 | bingo_segment_stats counts every segment, possible is the number of distinct on-board segments with no unchecked cell and guaranteed the number with every cell checked, guaranteed <= possible <= total, some segment is possible exactly when five in a row is possible, and all are zero below size 5 |
| Puzzle.StatsOf | crates/engine/src/solver/mod.rs:1253-1275 | one pass counts every listed segment, possible is the number of positions holding an open segment and guaranteed the number holding a fully checked one |
| Puzzle.DoneIsOpen | crates/engine/src/solver/mod.rs:1268-1273 | a fully checked segment has no unchecked cell, so guaranteed segments are possible ones |
| Puzzle.PairsDistinct | crates/engine/src/solver/mod.rs:1175-1176 | the nested loop visits no (i, j) twice |
| Puzzle.TaggedDistinct | crates/engine/src/solver/mod.rs:1175-1236 | the four loops, each over repeat-free starts and each with its own direction, produce no segment twice |
| Puzzle.SegmentsDistinct | crates/engine/src/solver/mod.rs:1167-1239 | the scan order visits no segment twice |
| Puzzle.CountedOnce | crates/engine/src/solver/mod.rs:1253-1275 | counting the scan positions whose segment is open (fully checked) counts the open (fully checked) segments |
| Steps.FullChecks | crates/engine/src/solver/state.rs:245-255 | a fully decided board has exactly one completion, its checked cells |
| Steps.FullFixed | crates/engine/src/solver/state.rs:245-255 | a fully decided board cannot be extended any further |
| Steps.FullNoUnknown | crates/engine/src/solver/state.rs:245-255 | on a fully decided board no cell of any list is unknown |
| Steps.FullCount | crates/engine/src/solver/state.rs:201-231 | on a fully decided board a line's checked count is its count in the only completion and its length less its unchecked count |
| Steps.FillKeeps | crates/engine/src/solver/mod.rs:1144-1164 | filling keeps every completion that gives the still-unknown listed cells that value |
| Steps.SetOrFail | crates/engine/src/solver/mod.rs:391-421 | try_set_checked_id / try_set_unchecked_id fail exactly on a cell already decided the other way, and otherwise set just that cell |
| Steps.SetKeeps | crates/engine/src/solver/mod.rs:391-421 | deciding a cell the way a completion has it does not fail and keeps that completion |
| Steps.AtLeastOne | crates/engine/src/solver/mod.rs:892-925 | the red step (and the checked-cyan step) only decides unknown cells and keeps the board valid |
| Steps.AtLeastOneKeeps | crates/engine/src/solver/mod.rs:892-925 | when a completion checks at least one neighbour, the step does not fail and keeps it |
| Steps.AtLeastOneFull | crates/engine/src/solver/mod.rs:892-925 | on a fully decided board the step passes exactly when at least one neighbour is checked |
| Steps.AtMostTwo | crates/engine/src/solver/mod.rs:927-953 | the blue step only decides unknown cells and keeps the board valid |
| Steps.AtMostTwoKeeps | crates/engine/src/solver/mod.rs:927-953 | when a completion checks at most two neighbours, the step does not fail and keeps it |
| Steps.AtMostTwoFull | crates/engine/src/solver/mod.rs:927-953 | on a fully decided board the step passes exactly when at most two neighbours are checked |
| Steps.Parity | crates/engine/src/solver/mod.rs:955-1031 | the purple (odd) and orange (even) steps only decide unknown cells and keep the board valid |
| Steps.ParityKeeps | crates/engine/src/solver/mod.rs:955-1031 | when a completion has the required parity of checked neighbours, the step does not fail and keeps it |
| Steps.ParityForced | crates/engine/src/solver/mod.rs:977-990 | with exactly one unknown neighbour, the value the step forces on it is the one every completion with the required parity gives it |
| Steps.ParityDecides | crates/engine/src/solver/mod.rs:977-990 | the last unknown neighbour is taken exactly when the checked ones alone have the wrong parity |
| Steps.OneMoreFlips | crates/engine/src/solver/mod.rs:977-990 | one more checked neighbour flips the parity, which is why the last unknown neighbour is forced |
| Steps.ParityFull | crates/engine/src/solver/mod.rs:955-1031 | on a fully decided board the step passes exactly when the checked neighbours have the required parity |
| Steps.AllUnchecked | crates/engine/src/solver/mod.rs:1077-1083 | the early-exit scan holds exactly when every neighbour is known unchecked |
| Steps.CyanRule | crates/engine/src/solver/mod.rs:1033-1091 | the cyan step only decides unknown cells and keeps the board valid |
| Steps.CyanKeeps | crates/engine/src/solver/mod.rs:1033-1091 | when a completion that checks the cyan cell also checks one of its 4 neighbours, the step does not fail and keeps it |
| Steps.CyanFull | crates/engine/src/solver/mod.rs:1033-1091 | on a fully decided board the step passes exactly when a checked cyan cell has a checked 4-neighbour |
| Steps.FillLine | crates/engine/src/solver/mod.rs:1098-1164 | filling a row, a column or a diagonal bucket never fails and sets exactly its unknown cells |
| Steps.FillPair | crates/engine/src/solver/mod.rs:833-840 | checking one line's unknowns and unchecking another's keeps the board valid and only decides unknown cells |
| Steps.Balance | crates/engine/src/solver/mod.rs:821-890 | the green / yellow step for one cell only decides unknown cells and keeps the board valid |
| Steps.Decide | crates/engine/src/solver/mod.rs:828-850 | the step's body, once both ranges are read, only decides unknown cells |
| Steps.Settle | crates/engine/src/solver/mod.rs:833-849 | each of the two cases only decides unknown cells and keeps the board valid |
| Steps.SettleKeeps | crates/engine/src/solver/mod.rs:833-849 | a case keeps a completion that puts the first line at its maximum and the second at its minimum |
| Steps.CompletionBounds | crates/engine/src/solver/state.rs:201-231 | a line's count in any completion lies between its min and its max |
| Steps.FillPairKeeps | crates/engine/src/solver/mod.rs:833-840 | filling the pair keeps a completion that checks the first line's unknowns and leaves the second's unchecked |
| Steps.BalanceKeeps | crates/engine/src/solver/mod.rs:821-890 | when a completion gives both lines the same count, the step does not fail and keeps it |
| Steps.DecideKeeps | crates/engine/src/solver/mod.rs:828-850 | with the ranges read from the board, the body does not fail and keeps every balanced completion |
| Steps.BalanceFull | crates/engine/src/solver/mod.rs:821-890 | on a fully decided board the step passes exactly when both lines have as many checked cells |
| Steps.RowColStep | crates/engine/src/solver/mod.rs:821-853 | propagate_green at one cell only decides unknown cells and keeps the board valid |
| Steps.RowColKeeps | crates/engine/src/solver/mod.rs:821-853 | when a completion balances the cell's row and column, the green step keeps it |
| Steps.RowColFull | crates/engine/src/solver/mod.rs:821-853 | on a fully decided board the green step passes exactly when the row and the column have as many checked cells |
| Steps.DownIndex | crates/engine/src/solver/mod.rs:860-861 | `row + (size - 1) - col` is the `\` diagonal through the cell, and a valid diagonal id |
| Steps.DiagonalsStep | crates/engine/src/solver/mod.rs:855-890 | propagate_yellow at one cell only decides unknown cells and keeps the board valid |
| Steps.DiagonalsKeeps | crates/engine/src/solver/mod.rs:855-890 | when a completion balances the two diagonals through the cell, the yellow step keeps it |
| Steps.DiagonalsFull | crates/engine/src/solver/mod.rs:855-890 | on a fully decided board the yellow step passes exactly when both diagonals have as many checked cells |
| Steps.SegGetId | crates/engine/src/solver/mod.rs:1175-1236 | reading a segment's cell by position reads the cell's id |
| Steps.FiveKeeps | crates/engine/src/solver/mod.rs:1093-1095 | a completion holding a line of five keeps the five-in-a-row check passing |
| Steps.FiveFull | crates/engine/src/solver/mod.rs:1093-1095 | on a fully decided board the five-in-a-row check passes exactly when some line of five is checked |
| Propagate.Coords | crates/engine/src/solver/mod.rs:823-824 | `(id / size, id % size)` is the cell's row and column, and they name the same id |
| Propagate.Step | crates/engine/src/solver/mod.rs:821-1091 | the deduction of a cell's colour rule only decides unknown cells and keeps the board valid |
| Propagate.StepKeeps | crates/engine/src/solver/mod.rs:821-1091 | a cell's deduction never fails on, and never loses, a completion that obeys the cell's rule |
| Propagate.LineStepKeeps | crates/engine/src/solver/mod.rs:821-890 | the same for the green and yellow cells |
| Propagate.CountStepKeeps | crates/engine/src/solver/mod.rs:892-1091 | the same for the red, blue, purple, orange and cyan cells |
| Propagate.StepFull | crates/engine/src/solver/mod.rs:821-1091 | on a fully decided board a deduction passes, unchanged, exactly when the cell's rule holds |
| Propagate.LineStepFull | crates/engine/src/solver/mod.rs:821-890 | the same for the green and yellow cells |
| Propagate.CountStepFull | crates/engine/src/solver/mod.rs:892-1091 | the same for the red, blue, purple, orange and cyan cells |
| Propagate.SweepFrom | crates/engine/src/solver/mod.rs:822-852 | the deductions for a list of cells in turn, stopping at the first failure, only decide unknown cells |
| Propagate.Sweep | crates/engine/src/solver/mod.rs:821-1091 | each propagate_<colour> pass only decides unknown cells and keeps the board valid |
| Propagate.SweepFromKeeps | crates/engine/src/solver/mod.rs:822-852 | a run over cells whose rules a completion obeys does not fail and keeps it |
| Propagate.SweepFromFull | crates/engine/src/solver/mod.rs:822-852 | on a fully decided board a run passes, unchanged, exactly when every listed cell's rule holds |
| Propagate.SweepKeeps | crates/engine/src/solver/mod.rs:821-1091 | a pass keeps every completion that obeys all the rules |
| Propagate.RulesByColor | crates/engine/src/solver.rs:128-175 | all the rules hold exactly when they hold colour by colour |
| Propagate.SweepFull | crates/engine/src/solver/mod.rs:821-1091 | on a fully decided board a pass passes, unchanged, exactly when every cell of its colour keeps its rule |
| Propagate.Round | crates/engine/src/solver/mod.rs:729-817 | one round (green, yellow, blue, red, purple, orange, cyan, then the five-in-a-row check) only decides unknown cells |
| Propagate.RoundKeeps | crates/engine/src/solver/mod.rs:729-817 | a round never fails on, and never loses, a completion that keeps every rule and has a line of five |
| Propagate.RoundFull | crates/engine/src/solver/mod.rs:729-817 | on a fully decided board a round passes, unchanged, exactly when the board is a solution |
| Propagate.Fixpoint | crates/engine/src/solver/mod.rs:727-819 | propagate_to_fixpoint terminates, only decides unknown cells, and ends on a board one more round leaves unchanged |
| Propagate.FixpointKeeps | crates/engine/src/solver/mod.rs:727-819 | propagation never loses a solution: when it fails, no completion of the board is a solution |
| Propagate.FixpointFull | crates/engine/src/solver/mod.rs:727-819 | on a fully decided board propagation passes, unchanged, exactly when the board is a solution |
| Propagate.FixpointIdempotent | crates/engine/src/solver/mod.rs:727-819 | propagating a propagated board changes nothing |
| Search.FirstUnknown | crates/engine/src/solver/mod.rs:718-725 | the scan stops at the first position whose cell is unknown, or at the end |
| Search.NextUnknown | crates/engine/src/solver/mod.rs:718-725 | find_next_unknown_cell gives an unknown cell of the decision order, and None exactly when every cell of the order is decided |
| Search.AssignShrinks | crates/engine/src/solver/mod.rs:688-714 | deciding an unknown cell leaves fewer unknown cells, so the search terminates |
| Search.ExtendsSubset | crates/engine/src/solver/mod.rs:672-675 | propagation adds no unknown cell |
| Search.Search | crates/engine/src/solver/mod.rs:661-716 | search only appends, and with a limit never past it |
| Search.Expand | crates/engine/src/solver/mod.rs:678-715 | a propagated node only appends, and with a limit never past it |
| Search.Try | crates/engine/src/solver/mod.rs:690-714 | a branch only appends, and with a limit never past it |
| Search.SearchSound | crates/engine/src/solver/mod.rs:661-716 | every mask search appends completes its starting board, keeps every rule and has a line of five |
| Search.ExpandSound | crates/engine/src/solver/mod.rs:678-715 | the same for a propagated node, whose full board is pushed as its mask |
| Search.TrySound | crates/engine/src/solver/mod.rs:690-714 | what a branch appends is sound and decides the branch's cell the branch's way |
| Search.SearchComplete | crates/engine/src/solver/mod.rs:661-716 | unless the limit cut it short, search appends every admissible completion of its board |
| Search.ExpandComplete | crates/engine/src/solver/mod.rs:678-715 | the same for a propagated node: each completion lies in one of the two branches |
| Search.TryComplete | crates/engine/src/solver/mod.rs:690-714 | a branch appends every admissible completion that decides its cell its way, unless the limit cut it short |
| Search.SearchDistinct | crates/engine/src/solver/mod.rs:661-716 | search never appends the same mask twice |
| Search.ExpandDistinct | crates/engine/src/solver/mod.rs:688-714 | the unchecked branch and the checked branch append different masks |
| Search.TryDistinct | crates/engine/src/solver/mod.rs:690-714 | a branch never appends the same mask twice |
| Search.Init | crates/engine/src/solver/mod.rs:441-446 | the start board has exactly the Black cells checked and everything else unknown |
| Search.InitSolutions | crates/engine/src/solver/mod.rs:425-428 | the solutions are exactly the admissible completions of the start board |
| Search.InitCompletes | crates/engine/src/solver/mod.rs:441-446 | the completions of the start board are the on-board sets holding every Black cell |
| Search.BlackHolds | crates/engine/src/solver.rs:128-134 | every cell's rule holds exactly when the coloured rules hold and every Black cell is checked |
| Search.Solve | crates/engine/src/solver/mod.rs:440-452 | solve_masks_limit returns at most `limit` masks unless the limit is 0 |
| Search.SolveCorrect | crates/engine/src/solver/mod.rs:440-452 | every returned mask is a solution, no mask twice, and unless the limit cut it short every solution is returned |
| Search.SolveMasks | crates/engine/src/solver/mod.rs:434-452 | Solver::new then solve_masks_limit on the 5x5 grid returns at most `limit` masks |
| Search.SolveMasksExact | crates/engine/src/solver/mod.rs:434-452 | with no limit it lists exactly the solutions of the colour grid, each once |
| Analysis.CountUnknown | crates/engine/src/solver/mod.rs:559-565 | count_unknown_decision_cells is at most the order's length, and zero exactly when no cell of the order is unknown |
| Analysis.Refute | crates/engine/src/solver/mod.rs:632-659 | contradiction_proof: an immediate conflict refutes for free, otherwise at most one unit of budget is spent, and an empty budget refutes only by conflict |
| Analysis.RefuteSound | crates/engine/src/solver/mod.rs:632-659 | a refuted assumption is false in every admissible completion |
| Analysis.OrderOnBoard | crates/engine/src/solver/mod.rs:112-128 | the decision order lists cells of the board |
| Analysis.Visit | crates/engine/src/solver/mod.rs:606-623 | one unknown cell adds one (saturating) to the unknown count, spends no more budget than it has, and keeps the first forced value found |
| Analysis.ScanFrom | crates/engine/src/solver/mod.rs:605-624 | the scan counts the unknown cells of the order and keeps the first forced value, which is an unknown cell of the order |
| Analysis.FindForced | crates/engine/src/solver/mod.rs:592-630 | find_forced_by_contradiction spends no more than its budget and returns an unknown cell of the order with the count of unknown cells |
| Analysis.VisitSound | crates/engine/src/solver/mod.rs:606-623 | a visit keeps the forced value in agreement with every admissible completion, and refutations never outnumber the unknown cells |
| Analysis.ScanSound | crates/engine/src/solver/mod.rs:605-624 | the same for the whole scan |
| Analysis.FindForcedSound | crates/engine/src/solver/mod.rs:592-630 | the forced value agrees with every admissible completion, and then the candidate assumptions are at most the unknown cells |
| Analysis.Logic | crates/engine/src/solver/mod.rs:567-590 | propagate_logic_with_budget fails on an empty budget, otherwise spends exactly one unit, and only decides unknown cells |
| Analysis.LogicKeeps | crates/engine/src/solver/mod.rs:567-590 | with an admissible completion it fails only for want of budget, and keeps that completion |
| Analysis.Close | crates/engine/src/solver/mod.rs:546-556 | solved is "fully decided", exhausted_budget is "budget is zero", and the segment counts are those of the final board |
| Analysis.AnalyzeRun | crates/engine/src/solver/mod.rs:471-557 | the analysis spends at most the 50 000 budget, exhausted_budget means it all went, and variable_cells is the order's length |
| Analysis.Rounds | crates/engine/src/solver/mod.rs:503-544 | the forcing loop spends at most its budget and only adds forced steps |
| Analysis.Tallied | crates/engine/src/solver/mod.rs:510-528 | one forced value adds one forced step and leaves variable_cells as it was |
| Analysis.Apply | crates/engine/src/solver/mod.rs:530-543 | setting the forced value and propagating spends at most the budget and only adds forced steps |
| Analysis.FullUnique | crates/engine/src/solver/state.rs:245-255 | a fully decided board has at most one admissible completion |
| Analysis.RoundsUnique | crates/engine/src/solver/mod.rs:503-546 | when the forcing loop ends solved, the board it started from has at most one solution |
| Analysis.ApplyUnique | crates/engine/src/solver/mod.rs:530-546 | the same after setting a forced value both completions share |
| Analysis.AnalyzeUnique | crates/engine/src/solver/mod.rs:471-557 | when logic alone decides every cell, the puzzle has at most one solution |
| Analysis.Analyze | crates/engine/src/solver/mod.rs:471-557 | analyze_human_difficulty reports as many variable cells as the decision order holds, and a solved report means the board has at most one solution |
| Analysis.SolvedUnique | crates/engine/src/solver/mod.rs:471-557 | when the run decides every cell by logic, any two solutions are equal |
| BitSolver.ColorMask | crates/engine/src/solver.rs:30-36 | black_mask holds exactly the cells of the colour |
| BitSolver.Coords | crates/engine/src/solver.rs:46-60 | the green and yellow lists hold each cell as its (row, column) pair |
| BitSolver.DecisionKeys | crates/engine/src/solver.rs:65-78 | one sort key per cell |
| BitSolver.BlueImpacted | crates/engine/src/solver.rs:80-88 | one mask of impacted Blue cells per cell |
| BitSolver.New | crates/engine/src/solver.rs:29-104 | Solver::new builds a consistent solver whose decision order is sorted by the key `-(colour weight + neighbour count)` |
| BitSolver.NewOk | crates/engine/src/solver.rs:29-104 | the fields Solver::new computes satisfy the solver's invariants |
| BitSolver.ListsOnBoard | crates/engine/src/solver.rs:46-60 | the colour lists hold cells of the board |
| BitSolver.NewOrderOk | crates/engine/src/solver.rs:62-78 | the decision order lists every variable (non-Black) cell exactly once |
| BitSolver.NewListsOk | crates/engine/src/solver.rs:46-60 | each colour list holds exactly the cells of its colour |
| BitSolver.CellsOfLists | crates/engine/src/solver.rs:46-60 | a row-major scan for a colour lists exactly that colour's cells, each once |
| BitSolver.OrderOk | crates/engine/src/solver.rs:62-78 | any reordering of the ascending non-Black cells lists each variable cell once |
| BitSolver.CoordsListColor | crates/engine/src/solver.rs:46-60 | turning ids into (row, column) pairs keeps the list exact |
| BitSolver.AscendingDistinct | crates/engine/src/solver.rs:62-64 | an ascending list has no repeated cell |
| BitSolver.SameMultisetDistinct | crates/engine/src/solver.rs:65-78 | sorting keeps a list free of repeats |
| BitSolver.Pop | crates/engine/src/solver.rs:287-298 | each line counter is the popcount of the mask on that line |
| BitSolver.InitialCounts | crates/engine/src/solver.rs:278-308 | the starting counters count the Black cells as checked and the variable cells as undecided, line by line, and the Black neighbours of each Blue cell |
| BitSolver.SkipLine | crates/engine/src/solver.rs:371-374 | lowering one undecided counter keeps the counters' shape |
| BitSolver.TakeLine | crates/engine/src/solver.rs:431-440 | moving one cell from undecided to checked keeps the counters' shape |
| BitSolver.Skip | crates/engine/src/solver.rs:362-374 | branch 1's counters keep their shape |
| BitSolver.Bump | crates/engine/src/solver.rs:442-447 | exactly the impacted Blue cells gain one checked neighbour |
| BitSolver.Take | crates/engine/src/solver.rs:412-447 | branch 2's counters keep their shape |
| BitSolver.OrderCell | crates/engine/src/solver.rs:62-64 | the decision order lists variable cells only |
| BitSolver.Backtrack | crates/engine/src/solver.rs:331-486 | backtrack only appends, and with a limit never past it |
| BitSolver.Branch | crates/engine/src/solver.rs:379-410 | a branch only appends, recursing when partial_prune lets it, and with a limit never past it |
| BitSolver.SolveMasksLimit | crates/engine/src/solver.rs:277-328 | solve_masks_limit returns at most `limit` masks unless the limit is 0 |
| BitSolver.InitialReached | crates/engine/src/solver.rs:310-325 | the first call starts from the Black cells checked and nothing decided |
| BitSolver.PopRemove | crates/engine/src/solver.rs:371-374 | removing a cell lowers exactly the counter of the one line holding it, which was positive |
| BitSolver.PopAdd | crates/engine/src/solver.rs:431-440 | adding a cell raises exactly the counter of the one line holding it |
| BitSolver.LinesOf | crates/engine/src/solver.rs:369-374 | a cell lies on exactly one row, column, `\` diagonal and `/` diagonal, the ones the code updates |
| BitSolver.SkipLineExact | crates/engine/src/solver.rs:371-374 | deciding an undecided cell unchecked keeps a line tally exact |
| BitSolver.TakeLineExact | crates/engine/src/solver.rs:431-440 | checking an undecided cell keeps a line tally exact |
| BitSolver.PendingPositive | crates/engine/src/solver.rs:371-374 | an undecided cell's lines have positive undecided counters, so the u8 subtraction never wraps |
| BitSolver.SkipExact | crates/engine/src/solver.rs:362-374 | branch 1 keeps every counter exact |
| BitSolver.TakeExact | crates/engine/src/solver.rs:412-447 | branch 2 keeps every counter exact, the Blue neighbour counts included |
| BitSolver.BumpExact | crates/engine/src/solver.rs:80-88 | the impacted mask makes the Blue counters follow a newly checked cell exactly |
| BitSolver.StepReached | crates/engine/src/solver.rs:359-447 | deciding the next cell of the order either way reaches the state at the next index |
| BitSolver.StepExact | crates/engine/src/solver.rs:359-447 | either branch keeps the counters exact, and the counters it lowers are positive |
| BitSolver.StepPending | crates/engine/src/solver.rs:359-361 | the next cell of the order is undecided, and the rest of the order stays pending |
| BitSolver.PendingStep | crates/engine/src/solver.rs:359-361 | deciding one cell of a repeat-free order removes just it from the pending cells |
| BitSolver.Split | crates/engine/src/solver.rs:182-195 | the decided or Black cells and the undecided cells split an extension between them |
| BitSolver.Between | crates/engine/src/solver.rs:210-231 | an extension's count on a line lies between the checked count and the checked plus undecided count |
| BitSolver.LineOpenSound | crates/engine/src/solver.rs:197-202 | the five-in-a-row pruning never rejects a state a solution extends |
| BitSolver.BluesSound | crates/engine/src/solver.rs:204-208 | the blue pruning never rejects a state a solution extends |
| BitSolver.GreensSound | crates/engine/src/solver.rs:210-218 | the green range pruning never rejects a state a solution extends |
| BitSolver.YellowsSound | crates/engine/src/solver.rs:220-231 | the yellow range pruning never rejects a state a solution extends |
| BitSolver.NeighboursSound | crates/engine/src/solver.rs:234-272 | the red, purple, orange and cyan pruning never rejects a state a solution extends |
| BitSolver.RedsSound | crates/engine/src/solver.rs:234-241 | the red pruning is sound |
| BitSolver.PurplesSound | crates/engine/src/solver.rs:243-250 | the purple pruning is sound |
| BitSolver.OrangesSound | crates/engine/src/solver.rs:252-259 | the orange pruning is sound |
| BitSolver.CyansSound | crates/engine/src/solver.rs:261-272 | the cyan pruning is sound |
| BitSolver.PruneSound | crates/engine/src/solver.rs:182-274 | partial_prune never rejects a partial assignment some solution extends |
| BitSolver.AgreesStep | crates/engine/src/solver.rs:359-447 | a solution extends a branch's state exactly when it extends the parent and decides the cell the branch's way |
| BitSolver.LeafAgrees | crates/engine/src/solver.rs:352-357 | once the order is used up, the only extension is the checked mask itself |
| BitSolver.BacktrackSound | crates/engine/src/solver.rs:331-486 | every mask backtrack appends is a solution extending the current state |
| BitSolver.BranchSound | crates/engine/src/solver.rs:379-410 | every mask a branch appends is a solution extending its state |
| BitSolver.BacktrackComplete | crates/engine/src/solver.rs:331-486 | backtrack reaches every solution on its path unless it stops at the limit first |
| BitSolver.SolutionOnPath | crates/engine/src/solver.rs:331-486 | every solution extending a reached state with exact counters lies on a path backtrack follows |
| BitSolver.BranchPasses | crates/engine/src/solver.rs:379-410 | a branch partial_prune lets through is the search one cell further on |
| BitSolver.BacktrackDistinct | crates/engine/src/solver.rs:331-486 | backtrack never appends the same mask twice |
| BitSolver.BranchDistinct | crates/engine/src/solver.rs:379-410 | a branch never appends the same mask twice |
| BitSolver.InitialAgrees | crates/engine/src/solver.rs:310-313 | every solution checks the Black cells, so it extends the starting state |
| BitSolver.OverloadedUnsolvable | crates/engine/src/solver.rs:303-308 | the early exit for a Blue cell with more than two Black neighbours fires only on boards without solutions |
| BitSolver.SolveMasksLimitCorrect | crates/engine/src/solver.rs:277-328 | solve_masks_limit returns solutions only, never the same twice, and every solution unless it stopped at the limit |
| BitSolver.SolveAllExact | crates/engine/src/solver.rs:29-328 | Solver::new then solve_masks_limit(0) lists exactly the solutions of the colour grid, each once |
| DateSeed.ParseInt | crates/engine/src/date_seed.rs:22-30 | str::parse for an integer type gives a value in the type's range, and a negative value only after a leading '-' |
| DateSeed.ParseDigits | crates/engine/src/date_seed.rs:22-30 | any run of digits, leading zeros included, parses to its value when it fits |
| DateSeed.Fields | crates/engine/src/date_seed.rs:16-37 | BadFormat exactly when the trimmed text does not split into three parts at '-'; parsed fields are in range and the year is never negative |
| DateSeed.DateToSeed | crates/engine/src/date_seed.rs:16-47 | date_to_seed_ymd succeeds exactly when the fields parse and the year is 1970 or later, gives the date's day count, and passes on the field errors |
| DateSeed.FullDateParts | crates/engine/src/date_seed.rs:17 | a YYYY-MM-DD text splits into its three fields |
| DateSeed.FullDateFields | crates/engine/src/date_seed.rs:16-37 | a YYYY-MM-DD text with fields in range parses to its date |
| DateSeed.DateToSeedOfFullDate | crates/engine/src/date_seed.rs:16-47 | a well-formed date gives its day count from 1970 on and BadValue before |
| DateSeed.EpochTexts | crates/engine/src/date_seed.rs:71-73 | the three test dates are written as the test writes them |
| DateSeed.EpochCounts | crates/engine/src/date_seed.rs:71-73 | their day counts are 0, 1 and 30 |
| DateSeed.EpochExamples | crates/engine/src/date_seed.rs:69-74 | date_to_seed_ymd gives 0, 1 and 30 for 1970-01-01, 1970-01-02 and 1970-01-31 |
| DateSeed.DaysFromCivilAsWritten | crates/engine/src/date_seed.rs:50-63 | days_from_civil as written agrees with the reference count whenever the shifted year is at least -1 |
| DateSeed.AsWrittenOffset | crates/engine/src/date_seed.rs:55 | for a shifted year below -1 the as-written count is one day short except one below a multiple of 400 |
| DateSeed.AsWrittenSkipsDay | crates/engine/src/date_seed.rs:55 | the as-written count jumps by two between the consecutive days -1-02-28 and -1-03-01 |
| DateSeed.SeedUnaffected | crates/engine/src/date_seed.rs:22-39 | a parsed year is never negative, so the seed never reaches the discrepancy |
| Calendar.DaysInMonth | apps/web/src/lib/stats.js:28-30 | month lengths are 28 to 31, and February has 29 days exactly in leap years |
| Calendar.Next | apps/web/src/lib/stats.js:30 | the following day is a valid date after the given one |
| Calendar.Prev | apps/web/src/lib/stats.js:30 | the preceding day is a valid date before the given one |
| Calendar.NextPrev | apps/web/src/lib/stats.js:30 | the following and the preceding day undo each other |
| Calendar.MonthBase | crates/engine/src/date_seed.rs:58 | `(153 * mp + 2) / 5` lies between 0 and 337 |
| Calendar.MarchMonth | crates/engine/src/date_seed.rs:57 | the month counted from March lies in 0..11 |
| Calendar.DaysFromCivil | crates/engine/src/date_seed.rs:50-63 | the day count is the start of the shifted year, plus the month offset, plus the day, less 719468 |
| Calendar.YearBaseStep | crates/engine/src/date_seed.rs:55-59 | a shifted year adds 366 days when leap and 365 otherwise |
| Calendar.YearBaseMonotone | crates/engine/src/date_seed.rs:55-59 | later shifted years start later |
| Calendar.DaysEpoch | crates/engine/src/date_seed.rs:61-62 | 1970-01-01 counts as day 0 |
| Calendar.DaysNext | crates/engine/src/date_seed.rs:50-63 | consecutive days have consecutive counts, across month, year and leap-day boundaries, for every year |
| Calendar.FebruaryEnds | crates/engine/src/date_seed.rs:50-63 | 1 March counts one more than the last day of February |
| Calendar.MonthEnds | crates/engine/src/date_seed.rs:50-63 | the first of a month counts one more than the last day of the month before |
| Calendar.MonthBaseGap | crates/engine/src/date_seed.rs:57-58 | within a shifted year, a month starts where the one before ends |
| Calendar.DaysWithinYear | crates/engine/src/date_seed.rs:32-39 | any day number 1..31 of a year counts between that year's first and last day |
| Calendar.YearStartsOrder | crates/engine/src/date_seed.rs:50-63 | each New Year's Day counts later than the last day of every earlier year |
| Calendar.MonthsOrder | crates/engine/src/date_seed.rs:50-63 | within a year an earlier month counts first |
| Calendar.DaysOrder | crates/engine/src/date_seed.rs:50-63 | the day count is strictly increasing in calendar order |
| Calendar.DaysSign | crates/engine/src/date_seed.rs:39-45 | a date with day 1..31 counts non-negative exactly when its year is 1970 or later, so the "before 1970" error is exactly a year test |
| Calendar.DaysInjective | crates/engine/src/date_seed.rs:50-63 | distinct valid dates have distinct day counts |
| Calendar.Shift | apps/web/src/lib/stats.js:30 | the date k days on is valid and counts k more |
| Calendar.ShiftUnique | apps/web/src/lib/stats.js:30 | it is the only valid date with that count |
| Calendar.ShiftCompose | apps/web/src/lib/stats.js:30 | shifting twice is shifting by the sum |
| Ymd.FieldsOf | apps/web/src/lib/stats.js:27 | a text of the shape `\d{4}-\d{2}-\d{2}` reads as four- and two-digit numbers |
| Ymd.Parse | apps/web/src/lib/stats.js:26-29 | the trimmed text denotes a date exactly when it has the shape and names a calendar date, and then it is the date the fields spell |
| Ymd.AddDays | apps/web/src/lib/stats.js:25-35 | ymdAddDays throws "bad ymd" with the trimmed text exactly when the text does not denote a date; for a date it gives "NaN-NaN-NaN" exactly when the moved day lies more than 100,000,000 days from 1970-01-01, past the range of a Date's time value |
| Ymd.Format | apps/web/src/lib/stats.js:31-34 | a date of a four-digit year is written in the accepted shape and reads back as itself |
| Ymd.ParseFormat | apps/web/src/lib/stats.js:26-34 | a readable text of a four-digit year is written back as it was, trimmed |
| Ymd.AddZero | apps/web/src/lib/stats.js:25-35 | adding no days gives the trimmed text back |
| Ymd.AddDaysCount | apps/web/src/lib/stats.js:25-35 | the result denotes the date whose day count is delta more |
| Ymd.FourDigitInRange | apps/web/src/lib/stats.js:30 | every date of a four-digit year lies within the range of a Date's time value |
| Ymd.AddDaysOfFormat | apps/web/src/lib/stats.js:25-35 | moving a formatted date moves the date, while the moved day stays within the range of a Date's time value |
| Ymd.AddDaysPastRange | apps/web/src/lib/stats.js:30-34 | moving a formatted date past the range of a Date's time value gives "NaN-NaN-NaN" |
| Ymd.AddDaysCompose | apps/web/src/lib/stats.js:25-35 | two moves in a row are one move by the sum, including when the second move leaves the range of a Date's time value |
| Ymd.ExampleTexts | apps/web/test/stats.test.mjs:6-10 | the test's dates are written as the test writes them |
| Ymd.ExampleShifts | apps/web/test/stats.test.mjs:6-10 | the test's shifts land on the next and the previous day |
| Ymd.AddDaysExamples | apps/web/test/stats.test.mjs:6-10 | ymdAddDays gives the three results the test expects |
| Text.LeadingSpace | crates/engine/src/date_seed.rs:17 | the white space at the start of the text, all of it |
| Text.TrailingSpace | crates/engine/src/date_seed.rs:17 | the white space at the end of the text, all of it |
| Text.Trim | crates/engine/src/date_seed.rs:17 | trimming removes exactly the leading and trailing white space, and empties exactly an all-space text |
| Text.TrimIdempotent | apps/web/src/lib/stats.js:26 | trimming twice is trimming once |
| Text.TrimUnchanged | apps/web/src/lib/stats.js:26 | a text that neither starts nor ends with white space is its own trim |
| Text.Decimal | apps/web/src/lib/stats.js:31-34 | String(n) is a non-empty digit string without a leading zero |
| Text.DecimalRoundTrip | apps/web/src/lib/stats.js:31-34 | reading back a rendered number gives the number |
| Text.DecimalValueBound | apps/web/src/lib/stats.js:27 | a k-digit value is below 10^k |
| Text.IndexOf | apps/web/src/lib/seo/url.js:43-47 | the position of the first occurrence of the character, or the length |
| Text.Split | crates/engine/src/date_seed.rs:17 | split gives at least one piece, none holding the separator, and joining them gives the text back |
| Text.SplitJoin | crates/engine/src/date_seed.rs:17 | splitting a join of separator-free pieces gives the pieces back |
| Text.Pad2 | apps/web/src/lib/stats.js:32-33 | padStart(2, '0') gives at least two digits with the number's value |
| Text.DecimalLength | apps/web/src/lib/stats.js:31 | a number between 10^(k-1) and 10^k is written with k digits |
| Text.DecimalOfValue | apps/web/src/lib/stats.js:31 | a digit string without a leading zero is the rendering of its value |
| Text.Pad2OfValue | apps/web/src/lib/stats.js:32-33 | two digits read and padded back are the same two digits |
| Text.Pad2Length | apps/web/src/lib/stats.js:32-33 | numbers below 100 pad to exactly two digits |
| Difficulty.HumanRuleWeight | crates/engine/src/difficulty.rs:85-98 | every rule weighs between 2 and 7 |
| Difficulty.WeightTiers | crates/engine/src/difficulty.rs:85-98 | local rules (red, blue, cyan) weigh less than counting rules (green, yellow), which weigh less than the equal parity rules (purple, orange) |
| Difficulty.SatAdd | crates/engine/src/difficulty.rs:180-181 | u64::saturating_add stays within u64 and is the sum when that fits |
| Difficulty.SatMul | crates/engine/src/difficulty.rs:181 | u64::saturating_mul stays within u64 and is the product when that fits |
| Difficulty.Tally | crates/engine/src/difficulty.rs:177-182 | the loop's count total is the true total capped at u64::MAX, and its weighted total is the true one whenever that fits |
| Difficulty.LogicChainStart | crates/engine/src/difficulty.rs:176-187 | calculate_logic_chain_start_difficulty is 0 when no rule fired and fits in u32 |
| Difficulty.WeightedSumBounds | crates/engine/src/difficulty.rs:177-182 | with weights between lo and hi the weighted total lies between lo and hi times the count |
| Difficulty.StepBounds | crates/engine/src/difficulty.rs:179-182 | one more entry keeps the weighted total within those bounds |
| Difficulty.QuotientAtMost | crates/engine/src/difficulty.rs:186 | the floor quotient of a total at most hi times the count is at most hi |
| Difficulty.QuotientAtLeast | crates/engine/src/difficulty.rs:186 | the floor quotient of a total at least lo times the count is at least lo |
| Difficulty.LogicChainStartAtMost | crates/engine/src/difficulty.rs:176-187 | even when the totals saturate, the result is at most the greatest weight of a rule that fired |
| Difficulty.LogicChainStartMean | crates/engine/src/difficulty.rs:176-187 | without saturation the result is the floor of the count-weighted mean weight, so at least the least weight that fired |
| Difficulty.WeightsAlwaysWithin | crates/engine/src/difficulty.rs:85-98 | every list of trigger counts has weights within 2..7 |
| Difficulty.Score | crates/engine/src/difficulty.rs:100-104 | the score lies in 1..100, is 100 when the budget ran out, and is the rounded total when that is in range |
| Difficulty.ScoreNearest | crates/engine/src/difficulty.rs:160 | the clamp picks the point of 1..100 nearest the rounded total |
| Difficulty.Report | crates/engine/src/difficulty.rs:189-211 | difficulty_report gives BadGridLength on a wrong length, BadColor at the first bad code, NoSolution exactly when the search finds none, and otherwise a score in 1..100 |
| Agreement.CountInCard | crates/engine/src/solver/mod.rs:927-936 | counting the checked cells of a repeat-free id list is the popcount of the mask over the same cells |
| Agreement.Member8 | crates/engine/src/masks.rs:20-37 | a cell is in NEIGHBORS_8 of id exactly when it is in the engine's 8-neighbour list of id |
| Agreement.List8 | crates/engine/src/masks.rs:20-37 | counting along the engine's 8-neighbour list of id is the popcount of m & NEIGHBORS_8[id] |
| Agreement.Around8 | crates/engine/src/solver/mod.rs:66-100 | the index's neighbors8 entry counts, in any mask, the cells of NEIGHBORS_8 |
| Agreement.Member4 | crates/engine/src/masks.rs:39-59 | a cell is in NEIGHBORS_4 of id exactly when it is in the engine's 4-neighbour list of id |
| Agreement.List4 | crates/engine/src/masks.rs:39-59 | counting along the engine's 4-neighbour list of id is the popcount of m & NEIGHBORS_4[id] |
| Agreement.Around4 | crates/engine/src/solver/mod.rs:66-100 | the index's neighbors4 entry counts, in any mask, the cells of NEIGHBORS_4 |
| Agreement.LineTally | crates/engine/src/solver/state.rs:87-95 | counting along line k of a family is the popcount of any mask holding exactly that line's cells |
| Agreement.DownTally | crates/engine/src/masks.rs:86-96 | counting along down-diagonal d is the popcount of m & DIAG_DOWN_MASKS[d] |
| Agreement.UpTally | crates/engine/src/masks.rs:97-107 | counting along up-diagonal d is the popcount of m & DIAG_UP_MASKS[d] |
| Agreement.StraightAgree | crates/engine/src/solver/mod.rs:821-854 | the engine's Green balance of row and column holds exactly when the row and column popcounts are equal |
| Agreement.SlantAgree | crates/engine/src/solver/mod.rs:855-891 | the engine's Yellow balance of the two diagonals holds exactly when the diagonal popcounts are equal |
| Agreement.LinesAgree | crates/engine/src/solver.rs:147-160 | the Green and Yellow comparisons of the engine and of check_all_rules agree on every cell |
| Agreement.RuleFromCounts | crates/engine/src/solver.rs:111-179 | once the neighbour and line counts match, each colour's rule reads the same in both engines |
| Agreement.CellAgrees | crates/engine/src/solver.rs:111-179 | every cell's colour rule read through the rule index holds exactly when check_all_rules' rule for it holds |
| Agreement.SegmentLine | crates/engine/src/masks.rs:108-126 | every on-board five-cell segment of the 5x5 board has a LINE_MASKS index |
| Agreement.LineSegment | crates/engine/src/masks.rs:108-126 | every LINE_MASKS entry is walked by an on-board segment with that index |
| Agreement.LineCellAt | crates/engine/src/masks.rs:108-126 | every cell of a winning line is one of the five cells of its segment |
| Agreement.SegmentCellOn | crates/engine/src/masks.rs:108-126 | every cell of the segment walking a winning line lies on that line |
| Agreement.BingoAgrees | crates/engine/src/solver.rs:107-109 | some on-board segment is fully checked exactly when has_five_in_a_row holds |
| Agreement.IndexReadsAlike | crates/engine/src/solver/mod.rs:36-136 | over any 5x5 rule index, a solution of the engine's puzzle is exactly a mask of board cells that keeps check_all_rules and has five in a row |
| Agreement.SolutionIsReference | crates/engine/src/solver/mod.rs:434-452 | on the 5x5 grid, Solver::new's puzzle has exactly the solutions of check_all_rules and has_five_in_a_row |
| Agreement.BruteForceIsReference | crates/engine/src/solver/mod.rs:1373-1402 | the brute-force reference, a mask of board cells that validate_state finds valid and bingo, is exactly a solution of the colour grid |
| Agreement.SolversAgree | crates/engine/src/solver/mod.rs:1404-1451 | without a limit both the propagation search and the bitmask solver list exactly the masks the brute-force reference accepts |
| Agreement.SearchMatchesBitSolver | crates/engine/src/solver/mod.rs:434-452 | without a limit the propagation search and the bitmask solver list the same masks |
| Agreement.NoSolutionIsReference | crates/engine/src/difficulty.rs:202-211 | compute_difficulty reports NoSolution exactly when no mask keeps check_all_rules and has five in a row |
| Difficulty.FirstSolution | crates/engine/src/difficulty.rs:207-211 | asking the solver for at most one solution gives none exactly when the board has no solution |
| Difficulty.NoSolutionExact | crates/engine/src/difficulty.rs:202-211 | for a grid of valid codes, NoSolution is reported exactly when the board has no solution at all |
| Difficulty.BlueCentreGrid | crates/engine/src/difficulty.rs:313-319 | the unsat test's grid has 25 valid codes |
| Difficulty.CentreNeighbours | crates/engine/src/difficulty.rs:316-318 | the centre's 8 neighbours are the cells the test blackens |
| Difficulty.CountAllIn | crates/engine/src/solver/mod.rs:927-936 | when every listed cell is checked the count is the list's length |
| Difficulty.RingDefeatsBlue | crates/engine/src/solver.rs:142-145 | with eight Black neighbours a Blue cell's at-most-two rule always fails |
| Difficulty.RingedColors | crates/engine/src/difficulty.rs:197-200 | the grid decodes to a Blue centre ringed by Black |
| Difficulty.CodeNames | crates/engine/src/colors.rs:21-26 | code 1 names Blue and code 2 names Black |
| Difficulty.RingNamed | crates/engine/src/difficulty.rs:197-200 | when every ring cell's code is 2, every ring cell decodes to Black |
| Difficulty.RingedUnsolvable | crates/engine/src/difficulty.rs:313-323 | a Blue centre ringed by Black leaves the board without a solution |
| Difficulty.RingedBlueNoSolution | crates/engine/src/difficulty.rs:313-323 | every such grid is reported as NoSolution |
| Difficulty.BlueCentreNoSolution | crates/engine/src/difficulty.rs:312-323 | the test's grid is reported as NoSolution |
| Progress.MakeKey | apps/web/src/lib/progress.js:17-31 | makePuzzleKey throws on an unknown kind or a missing field and otherwise gives the kind's prefix, ':' and the field |
| Progress.ParseKey | apps/web/src/lib/progress.js:17-31 | a key read back names a known kind |
| Progress.KeyRoundTrip | apps/web/src/lib/progress.js:17-31 | reading a key back gives its kind and field |
| Progress.KeyInjective | apps/web/src/lib/progress.js:17-31 | different puzzles never share a key |
| Progress.MaskU32 | apps/web/src/lib/progress.js:36-39 | normalizeMaskU32 is in [0, 2^32), congruent to the mask modulo 2^32, and the mask itself when already in range |
| Progress.MasksU32 | apps/web/src/lib/progress.js:46-47 | mapping normalizeMaskU32 normalizes each element |
| Progress.MasksInRange | apps/web/src/lib/progress.js:36-39 | masks already in range are left alone |
| Progress.KeepLastInRange | apps/web/src/lib/progress.js:50-51 | trimming keeps masks in range |
| Progress.KeepLast | apps/web/src/lib/progress.js:50-51 | `xs.slice(Math.max(0, xs.length - limit))` is the last `limit` elements in order |
| Progress.KeepAll | apps/web/src/lib/progress.js:50-51 | nothing is dropped from a stack within the limit |
| Progress.NormalizeHistory | apps/web/src/lib/progress.js:45-54 | normalizeHistory normalizes every mask, treats a non-array stack as empty, and keeps the last `limit` entries of each stack |
| Progress.NormalizeNormal | apps/web/src/lib/progress.js:45-54 | normalizing a normal history changes nothing |
| Progress.NormalizeInRange | apps/web/src/lib/progress.js:45-54 | on in-range masks normalizing only trims the stacks |
| Progress.NormalizeIdempotent | apps/web/src/lib/progress.js:45-54 | normalizing is idempotent |
| Progress.CreateHistory | apps/web/src/lib/progress.js:59-61 | createHistory has empty stacks and the normalized mask as present |
| Progress.Push | apps/web/src/lib/progress.js:68-74 | historyPush leaves the history as it is for the present mask, and otherwise pushes the old present on undo, clears redo and sets the new present |
| Progress.Undo | apps/web/src/lib/progress.js:80-87 | historyUndo does nothing on an empty undo stack, and otherwise pops undo into present and pushes the old present on redo |
| Progress.Redo | apps/web/src/lib/progress.js:93-100 | historyRedo is the mirror of undo |
| Progress.RedoAfterUndo | apps/web/src/lib/progress.js:80-100 | redo undoes an undo when redo had room |
| Progress.UndoAfterRedo | apps/web/src/lib/progress.js:80-100 | undo undoes a redo when undo had room |
| Progress.UndoAfterPush | apps/web/src/lib/progress.js:68-87 | undo right after a push returns to the state before, with the pushed mask on redo |
| Progress.PushStep | apps/web/src/lib/progress.js:68-74 | on a normal history with room, push appends the present to undo |
| Progress.UndoStep | apps/web/src/lib/progress.js:80-87 | on a normal history with room, undo moves one mask each way |
| Progress.RedoStep | apps/web/src/lib/progress.js:93-100 | on a normal history with room, redo moves one mask each way |
| Progress.ExamplePushes | apps/web/test/progress.test.mjs:12-18 | pushing 1 and 3 onto a fresh history gives undo [0, 1] and present 3 |
| Progress.ExampleUndo | apps/web/test/progress.test.mjs:20-22 | then undo gives present 1 and redo [3] |
| Progress.ExampleRedo | apps/web/test/progress.test.mjs:24-26 | then redo gives present 3 and undo [0, 1] again |
| Base64.StdChar | apps/web/src/lib/level-code.js:81-91 | each 6-bit value has a character of the base64 alphabet that decodes back to it |
| Base64.StdValue | apps/web/src/lib/level-code.js:107-115 | each alphabet character decodes to a 6-bit value |
| Base64.Quad | apps/web/src/lib/level-code.js:81-91 | three bytes become four alphabet characters |
| Base64.Tail | apps/web/src/lib/level-code.js:81-91 | a final group of one or two bytes becomes two or three characters |
| Base64.Unpadded | apps/web/src/lib/level-code.js:81-91 | the unpadded encoding uses only standard alphabet characters, its length is 0 modulo 4 for whole groups and one more than the leftover byte count otherwise, never 1 modulo 4 |
| Base64.UnpaddedLength | apps/web/src/lib/level-code.js:81-91 | the unpadded encoding has four characters per three bytes plus two or three for a final partial group |
| Base64.Padding | apps/web/src/lib/level-code.js:81-91 | the '=' characters that complete the last quantum |
| Base64.Encode | apps/web/src/lib/level-code.js:81-91 | the padded encoding's length is a multiple of 4 |
| Base64.ReplaceAll | apps/web/src/lib/level-code.js:83-84 | replaceAll with single characters swaps exactly the matching characters |
| Base64.RemoveAll | apps/web/src/lib/level-code.js:85 | replaceAll(c, '') leaves no c behind |
| Base64.RemoveAllAbsent | apps/web/src/lib/level-code.js:85 | removing a character that is absent changes nothing |
| Base64.RemoveAllAppend | apps/web/src/lib/level-code.js:85 | removal distributes over concatenation |
| Base64.RemoveAllOnly | apps/web/src/lib/level-code.js:85 | removing '=' from padding leaves nothing |
| Base64.ToUrlShape | apps/web/src/lib/level-code.js:78-92 | the URL form is the unpadded encoding over the URL-safe alphabet |
| Base64.FromUrlOfToUrl | apps/web/src/lib/level-code.js:100 | mapping '-' and '_' back restores the standard unpadded encoding |
| Base64.RemoveAsciiSpace | apps/web/src/lib/level-code.js:112 | atob's white-space stripping leaves no ASCII white space |
| Base64.RemoveAsciiSpaceAbsent | apps/web/src/lib/level-code.js:112 | a text without white space is unchanged by it |
| Base64.DecodeChars | apps/web/src/lib/level-code.js:107-115 | decoding alphabet characters gives bytes |
| Base64.Atob | apps/web/src/lib/level-code.js:112-115 | atob's output, when it does not throw, is bytes |
| Base64.QuadRoundTrip | apps/web/src/lib/level-code.js:81-115 | a group's four characters decode to its three bytes |
| Base64.TailRoundTrip | apps/web/src/lib/level-code.js:81-115 | a final partial group decodes to its bytes |
| Base64.DecodeGroup | apps/web/src/lib/level-code.js:107-115 | a whole group decodes on its own, ahead of the rest |
| Base64.UnpaddedRoundTrip | apps/web/src/lib/level-code.js:81-115 | decoding the unpadded encoding gives the bytes back |
| Base64.PaddingStripped | apps/web/src/lib/level-code.js:107-115 | atob strips exactly the padding the encoder added |
| Base64.StripPadded | apps/web/src/lib/level-code.js:112-115 | stripping the padding from unpadded text followed by the padding for its byte count gives the unpadded text back |
| Base64.AtobEncode | apps/web/src/lib/level-code.js:81-115 | atob undoes btoa |
| LevelCode.Nibble | apps/web/src/lib/level-code.js:64-67 | a cell's stored value is a nibble |
| LevelCode.FirstBadCell | apps/web/src/lib/level-code.js:29-33 | the first cell that is not an integer in 0..15 |
| LevelCode.PackedByte | apps/web/src/lib/level-code.js:34-36 | the byte holding two cells is below 256 |
| LevelCode.PackLevelBytes | apps/web/src/lib/level-code.js:17-40 | packLevelBytes rejects a length other than 25 and reports the first bad cell; it gives 14 bytes with version 1 first, cell i in the low nibble of byte 1 + i/2 when even and the high nibble when odd |
| LevelCode.UnpackLevelBytes | apps/web/src/lib/level-code.js:46-72 | unpackLevelBytes rejects no bytes, a version other than 1 and a length other than 14, and otherwise reads each cell's nibble |
| LevelCode.UnpackPack | apps/web/src/lib/level-code.js:17-72 | unpacking a packed grid gives the grid back |
| LevelCode.PackUnpack | apps/web/src/lib/level-code.js:17-72 | packing an unpacked level gives its bytes back when the unused nibble is zero |
| LevelCode.RepackByte | apps/web/src/lib/level-code.js:34-36 | packing a byte's two nibbles rebuilds the byte |
| LevelCode.ByteNibbles | apps/web/src/lib/level-code.js:67 | a byte is its low nibble plus 16 times its high nibble |
| LevelCode.BytesToBase64Url | apps/web/src/lib/level-code.js:78-92 | bytesToBase64Url uses only the URL-safe alphabet with no '=' |
| LevelCode.Base64UrlToBytes | apps/web/src/lib/level-code.js:98-116 | base64UrlToBytes rejects blank input and a length of 1 modulo 4, and otherwise decodes to bytes |
| LevelCode.RepadRestores | apps/web/src/lib/level-code.js:101-104 | the decoder appends exactly the padding the encoder dropped |
| LevelCode.Base64UrlRoundTrip | apps/web/src/lib/level-code.js:78-116 | the code of a non-empty byte string decodes back to it |
| LevelCode.EncodeLevel | apps/web/src/lib/level-code.js:123-125 | encodeLevel fails exactly when packing does, with its error, and otherwise uses only the URL-safe alphabet |
| LevelCode.DecodeLevel | apps/web/src/lib/level-code.js:132-134 | a decoded level has version 1 and 25 cells in 0..15 |
| LevelCode.LevelRoundTrip | apps/web/test/level-code.test.mjs:6-12 | every encodable grid decodes back from its code |
| LevelCode.Ints | apps/web/src/lib/level-code.js:161 | the integer values of a list of integers |
| LevelCode.LevelToJson | apps/web/src/lib/level-code.js:140-142 | levelToJson is version 1 with a copy of the grid |
| LevelCode.Flatten | apps/web/src/lib/level-code.js:169-181 | a 2D grid flattens exactly when every row is an array of the right length of integers, to rows times size cells |
| LevelCode.FlattenAt | apps/web/src/lib/level-code.js:172-179 | cell c of row r lands at r * size + c |
| LevelCode.NormalizeLevelJson | apps/web/src/lib/level-code.js:149-185 | normalizeLevelJson rejects a non-object, a wrong version and a missing or falsy grid, and accepts only a version-1 object with an array grid |
| LevelCode.JsonRoundTrip | apps/web/test/level-code.test.mjs:14-18 | a flat integer grid of square length re-imports as itself |
| LevelCode.Json2D | apps/web/test/level-code.test.mjs:20-26 | a square 2D grid is accepted with n*n cells, cell (i, j) landing at row-major position i*n+j |
| LevelCode.Json2DNotSquare | apps/web/src/lib/level-code.js:174 | a 2D grid with a row of the wrong length is refused as not square |
| LevelCode.FlattenFirstBad | apps/web/src/lib/level-code.js:172-180 | flattening reports the first bad row's defect |
| Stats.LessIrreflexive | apps/web/src/lib/stats.js:18 | no string sorts before itself |
| Stats.LessTransitive | apps/web/src/lib/stats.js:18 | the string order is transitive |
| Stats.LessTotal | apps/web/src/lib/stats.js:18 | any two different strings are ordered one way or the other |
| Stats.ShouldInclude | apps/web/src/lib/stats.js:13-19 | shouldIncludeEntry keeps everything without a reset, drops non-objects, and otherwise keeps an entry exactly when its updatedAt or solvedAt is a non-empty string at or after the reset |
| Stats.IncludeMonotone | apps/web/src/lib/stats.js:13-19 | an earlier reset keeps every entry a later one keeps |
| Stats.Streak | apps/web/src/lib/stats.js:43-50 | the streak loop counts at most its iterations |
| Stats.Yesterday | apps/web/src/lib/stats.js:48 | the cursor steps back with ymdAddDays(cursor, -1): it fails exactly when the cursor is not a date, and otherwise names the day before, within four-digit years |
| Stats.Walk | apps/web/src/lib/stats.js:42-51 | the streak loop counts at most its iterations, counts nothing when no iteration is left or the cursor is unsolved, and counts something only from a solved day |
| Stats.ComputeDailyStreak | apps/web/src/lib/stats.js:42-51 | computeDailyStreak is at most maxDays and 0 when today is not solved |
| Stats.YearFromDays | apps/web/src/lib/stats.js:27 | a date no earlier than 1000-01-01 has a year of four digits or more |
| Stats.YearNotAfter | apps/web/src/lib/stats.js:48 | a date before another is in no later year |
| Stats.Back | apps/web/src/lib/stats.js:48 | the date i days back counts i less |
| Stats.StreakStop | apps/web/src/lib/stats.js:45-46 | the loop stops at once on an unsolved day or when no iteration is left |
| Stats.StreakMove | apps/web/src/lib/stats.js:45-49 | a solved day counts one more than the streak from the day before |
| Stats.StreakAlong | apps/web/src/lib/stats.js:42-51 | along a chain of days each stepping back to the next, the streak counts the solved days at its head and stops at the first unsolved one |
| Stats.StreakCounts | apps/web/src/lib/stats.js:42-51 | from a date, the first n days back are solved and the next is not unless the iterations ran out |
| Stats.StreakExact | apps/web/src/lib/stats.js:42-51 | the streak is exactly k when the first k days back are solved and the next is not |
| Stats.CountSolved | apps/web/src/lib/stats.js:69-70 | no kind counts more solved entries than entries |
| Stats.SummarizeFrom | apps/web/src/lib/stats.js:65-71 | the loop adds each kind's count of kept entries to its total and of solved ones to its solved count |
| Stats.Summarize | apps/web/src/lib/stats.js:57-74 | summarizeByKind's counts are the reference counts of kept entries of each kind, solved never above total |
| Stats.SummarizeAsWrittenFrom | apps/web/src/lib/stats.js:65-71 | the loop as written throws exactly when there is no reset and a null entry, and otherwise agrees with the corrected one |
| Stats.SummarizeAsWritten | apps/web/src/lib/stats.js:57-74 | summarizeByKind as written throws exactly on a null entry without a reset, and otherwise gives the corrected counts |
| Stats.SummarizeNullEntry | apps/web/src/lib/stats.js:66-67 | one null entry and no reset make the code throw, where the corrected count is all zeros |
| Stats.LastDated | apps/web/src/lib/stats.js:85-91 | the last kept daily entry for a date, if any |
| Stats.DailyMap | apps/web/src/lib/stats.js:85-91 | the date map holds exactly the dates some kept daily entry has, each with the last such entry |
| Stats.NonNegative | apps/web/src/lib/stats.js:102-104 | `Math.max(0, x)` of a finite number is x clamped at zero, and null stays null |
| Stats.DayOf | apps/web/src/lib/stats.js:95-105 | a day is played exactly when the map has its date and solved exactly when that entry is solved |
| Stats.BuildDailyTrend | apps/web/src/lib/stats.js:84-108 | buildDailyTrend fails exactly on a bad today with days > 0, and otherwise gives `days` entries, day j being today moved by j - (days - 1) |
| Stats.TrendDays | apps/web/src/lib/stats.js:95-105 | each day shows the last daily entry for its date, solved when it is, its time clamped at zero |
| Stats.TrendAt | apps/web/src/lib/stats.js:94-95 | day j is today moved by j - (days - 1) |
| Stats.TrendDates | apps/web/src/lib/stats.js:94-95 | the trend's dates are consecutive and end today |
| Stats.BestIndex | apps/web/src/lib/stats.js:118-132 | the first kept, solved daily entry with the smallest value of the metric |
| Stats.BestRecord | apps/web/src/lib/stats.js:123-131 | the record exists exactly when some entry qualifies and its value is no more than any candidate's |
| Stats.BestDaily | apps/web/src/lib/stats.js:114-135 | bestDaily's fastest and least-hints records are the best records for time and for hints |
| Stats.LessAfterPrefix | apps/web/src/lib/stats.js:18 | a common prefix does not change the string order |
| Stats.IncludeBefore | apps/web/test/stats.test.mjs:12-14 | an entry updated before the reset is dropped |
| Stats.IncludeAtReset | apps/web/test/stats.test.mjs:15 | an entry solved at the reset is kept |
| Stats.IncludeAfter | apps/web/test/stats.test.mjs:16 | an entry updated after the reset is kept |
| Stats.SummarizeExample | apps/web/test/stats.test.mjs:26-37 | the test's entries count daily 2/1, seed 1/1, custom 1/0 |
| Stats.BestExample | apps/web/test/stats.test.mjs:54-63 | the test's best time is 8000 on 2025-12-21 and least hints 1 on 2025-12-22 |
| Stats.DecemberTexts | apps/web/test/stats.test.mjs:19-24 | the dates 2025-12-19 to 2025-12-22 format as the texts the test uses |
| Stats.DecemberBacks | apps/web/test/stats.test.mjs:19-24 | stepping back from 2025-12-22 gives the test's dates |
| Stats.SolvedExample | apps/web/test/stats.test.mjs:20 | the test's solved set holds the three days and not 2025-12-19 |
| Stats.StreakExample | apps/web/test/stats.test.mjs:19-21 | the streak ending 2025-12-22 is 3 |
| Stats.TrendMapExample | apps/web/test/stats.test.mjs:39-44 | the test's entries map each date to its entry |
| Stats.TrendDaysExample | apps/web/test/stats.test.mjs:44-49 | the two-day window is 2025-12-21 and 2025-12-22 |
| Stats.TrendExample | apps/web/test/stats.test.mjs:39-52 | the test's trend has two days, the first played and solved, the second played only |
| Marks.CreateMarks | apps/web/src/lib/marks.js:15-17 | createMarks gives `length` unmarked cells, none for a negative length |
| Marks.NormalizeMarks | apps/web/src/lib/marks.js:24-32 | normalizeMarks gives `length` valid marks, keeping each stored valid mark at its index and unmarking everything else, and all unmarked for a non-array |
| Marks.Stored | apps/web/src/lib/marks.js:24-32 | marks stored as an array of numbers |
| Marks.NormalizeStored | apps/web/src/lib/marks.js:24-32 | stored marks at least as long as asked read back as their first cells |
| Marks.NormalizeIdempotent | apps/web/src/lib/marks.js:24-32 | normalizing normalized marks changes nothing |
| Marks.CycleMarkValue | apps/web/src/lib/marks.js:37-41 | a click always gives a valid mark |
| Marks.CycleOrder | apps/web/test/marks.test.mjs:12-17 | the cycle goes none, excluded, questioned, and any other value restarts it |
| Marks.CyclePeriod | apps/web/src/lib/marks.js:37-41 | three clicks bring a mark back, one or two never do |
| Marks.NormalizeExample | apps/web/test/marks.test.mjs:19-27 | the test's thirty values normalize to 25 cells with 0, 0, 2 first |
| Tutorial.NormalizeDismissedAt | apps/web/src/lib/tutorial.js:14-21 | normalizeDismissedAt is null for a non-string or a blank one, and otherwise the trimmed text exactly when it starts like an ISO timestamp |
| Tutorial.ShouldAutoShowTutorial | apps/web/src/lib/tutorial.js:26-28 | the tutorial opens by itself exactly when no string is stored or the stored string, trimmed, does not start like an ISO timestamp |
| Tutorial.NormalizeIdempotent | apps/web/src/lib/tutorial.js:14-21 | a normalized dismissal time normalizes to itself |
| Tutorial.KeepsTimestamp | apps/web/src/lib/tutorial.js:14-21 | an ISO-looking time without surrounding white space is kept as it is |
| Tutorial.RejectExamples | apps/web/test/tutorial.test.mjs:6-10 | null, the empty text, blanks and "not-iso" are all rejected |
| Tutorial.StampShape | apps/web/test/tutorial.test.mjs:11 | the test's timestamp starts like an ISO timestamp |
| Tutorial.StampExample | apps/web/test/tutorial.test.mjs:11-17 | the test's timestamp is kept and stops the tutorial opening |
| UiPrefs.ReadBooleanFlag | apps/web/src/lib/ui-prefs.js:29-39 | "1" reads true and "0" false; anything else, a missing storage or getItem, and a throwing getItem give the default |
| UiPrefs.WriteBooleanFlag | apps/web/src/lib/ui-prefs.js:46-53 | writing stores "1" or "0" under the key, and a missing storage or setItem, or a throwing one, leaves the storage as it was |
| UiPrefs.WriteThenRead | apps/web/test/ui-prefs.test.mjs:12-30 | a written flag reads back as written, whatever the default |
| UiPrefs.WriteKeepsOthers | apps/web/src/lib/ui-prefs.js:46-53 | writing one flag leaves every other flag as it read |
| UiPrefs.ReadProgressListOpen | apps/web/src/lib/ui-prefs.js:59-61 | the progress list is open unless stored closed |
| UiPrefs.WriteProgressListOpen | apps/web/src/lib/ui-prefs.js:68-70 | a written progress-list state reads back |
| UiPrefs.DefaultExamples | apps/web/test/ui-prefs.test.mjs:6-10 | a missing storage or getItem gives the default |
| UiPrefs.RoundTripExample | apps/web/test/ui-prefs.test.mjs:12-30 | the test's write and read sequence |
| UiPrefs.ThrowingExample | apps/web/test/ui-prefs.test.mjs:32-44 | a throwing storage gives the default and a write changes nothing |
| SeoUrl.ReplaceAppend | apps/web/src/lib/seo/url.js:115-119 | replacing every occurrence of a character distributes over concatenation |
| SeoUrl.ReplaceAbsent | apps/web/src/lib/seo/url.js:115-119 | replacing a character the text does not hold changes nothing |
| SeoUrl.EscapeXml | apps/web/src/lib/seo/url.js:113-120 | escapeXml is the one-pass character-by-character escape, leaves no `<`, `>`, `"` or `'`, starts one of the five predefined entities of section 4.6 of XML 1.0 at every ampersand, and decodes back to its input, so no information is lost |
| SeoUrl.EscapeAppend | apps/web/src/lib/seo/url.js:113-120 | the chain of five replacements distributes over concatenation |
| SeoUrl.EntityClean | apps/web/src/lib/seo/url.js:115-119 | no entity holds a character that a later replacement would rewrite |
| SeoUrl.ReplaceOne | apps/web/src/lib/seo/url.js:115-119 | replacing in a one-character text gives the replacement exactly when the character matches |
| SeoUrl.EscapeOne | apps/web/src/lib/seo/url.js:113-120 | the chain of replacements turns one character into its entity, or leaves it when it needs none |
| SeoUrl.EscapeIsEach | apps/web/src/lib/seo/url.js:113-120 | the chain of five replaceAll calls is the one-pass character-by-character escape, because the ampersand goes first |
| SeoUrl.AmpersandsAppend | apps/web/src/lib/seo/url.js:113-120 | text whose every ampersand starts an entity keeps that property under concatenation |
| SeoUrl.EntityOk | apps/web/src/lib/seo/url.js:115-119 | the escape of one character has no markup character and only entity ampersands |
| SeoUrl.EscapeSafe | apps/web/src/lib/seo/url.js:113-120 | the one-pass escape holds no `<`, `>`, `"` or `'`, and each ampersand begins one of the five predefined entities of section 4.6 of XML 1.0 |
| SeoUrl.Decode | apps/web/src/lib/seo/url.js:115-119 | reading one character back from escaped text consumes at least one and no more than there is |
| SeoUrl.DecodeEntity | apps/web/src/lib/seo/url.js:115-119 | an entity decodes to its character, consuming exactly the entity |
| SeoUrl.UnescapeStep | apps/web/src/lib/seo/url.js:115-119 | decoding text that begins with an entity gives its character, then the rest decoded |
| SeoUrl.UnescapeEach | apps/web/src/lib/seo/url.js:113-120 | decoding the one-pass escape gives the text back |
| SeoUrl.NormalizeSiteUrl | apps/web/src/lib/seo/url.js:10-19 | normalizeSiteUrl is "" for a blank site URL, and otherwise the origin of the trimmed URL, or "" when it does not parse |
| SeoUrl.NormalizeTrimmed | apps/web/src/lib/seo/url.js:11 | surrounding white space never changes the normalized site URL |
| SeoUrl.Rooted | apps/web/src/lib/seo/url.js:29 | the path always starts with a slash, and one added only when it was missing |
| SeoUrl.RootedIdempotent | apps/web/src/lib/seo/url.js:29 | rooting a rooted path changes nothing |
| SeoUrl.ToAbsoluteUrl | apps/web/src/lib/seo/url.js:26-31 | without a usable site URL toAbsoluteUrl gives the path itself, or "/" for an empty one |
| SeoUrl.AbsoluteIgnoresRoot | apps/web/src/lib/seo/url.js:26-31 | against a site, a path resolves as its rooted form does |
| SeoUrl.NormalizeStable | apps/web/src/lib/seo/url.js:10-19 | a site URL that is its own origin normalizes to itself |
| SeoUrl.StripFallback | apps/web/src/lib/seo/url.js:42-47 | the fallback of stripQueryAndHash holds neither `#` nor `?` |
| SeoUrl.SplitFirst | apps/web/src/lib/seo/url.js:44-45 | the first piece of a split is the text before the first separator |
| SeoUrl.StripExact | apps/web/src/lib/seo/url.js:42-47 | the fallback gives the prefix of href that stops at its first `?` or `#` |
| SeoUrl.StopsUnique | apps/web/src/lib/seo/url.js:42-47 | only one text is that prefix, so the result is pinned down |
| SeoUrl.StripIdempotent | apps/web/src/lib/seo/url.js:42-47 | stripping twice is stripping once |
| SeoUrl.NonEmpty | apps/web/src/lib/seo/url.js:96-99 | the kept Disallow paths are non-empty and no more than given |
| SeoUrl.NonEmptyMembers | apps/web/src/lib/seo/url.js:96-99 | a path is kept exactly when it is given and not empty |
| SeoUrl.NonEmptyKeepsAll | apps/web/src/lib/seo/url.js:96-99 | with no empty path every path is kept, in order |
| SeoUrl.RobotsLines | apps/web/src/lib/seo/url.js:88-104 | robots.txt has the user-agent line, Allow or Disallow of everything by allowAll (true by default), one Disallow line per non-empty path in order, and a Sitemap line exactly when the site URL is usable |
| SeoUrl.RenderRobotsTxt | apps/web/src/lib/seo/url.js:106 | the lines are joined by line feeds and end with one |
| SeoUrl.LineNoNewline | apps/web/src/lib/seo/url.js:91-104 | no line holds a line feed unless a path or the sitemap URL does |
| SeoUrl.RobotsReadBack | apps/web/src/lib/seo/url.js:88-107 | splitting robots.txt at line feeds gives back its lines |
| SeoUrl.RobotsExample | apps/web/test/seo-url.test.mjs:26-31 | the test's robots.txt allows everything and names the sitemap |
| SeoUrl.Shown | apps/web/src/lib/seo/url.js:68-70 | an optional field is shown exactly when present and non-empty, as given |
| SeoUrl.SafeUrl | apps/web/src/lib/seo/url.js:57-64 | an element becomes an entry only with a non-empty location, resolved against the site, other fields as given; without a site every element with a location is kept |
| SeoUrl.SafeUrls | apps/web/src/lib/seo/url.js:57-64 | the kept entries all have a location and are no more than the elements |
| SeoUrl.SafeUrlsKeepAll | apps/web/src/lib/seo/url.js:57-64 | without a site URL every element with a location is kept, in order |
| SeoUrl.RenderSitemapXml | apps/web/src/lib/seo/url.js:78-81 | the sitemap starts with the XML declaration and ends by closing the urlset |
| SeoUrl.ReadText | apps/web/src/lib/seo/url.js:67-70 | reading text splits the input without losing any of it |
| SeoUrl.ReadElement | apps/web/src/lib/seo/url.js:67-70 | reading an element consumes input |
| SeoUrl.ReadOptional | apps/web/src/lib/seo/url.js:68-70 | reading an optional element never grows the input |
| SeoUrl.ReadFields | apps/web/src/lib/seo/url.js:66-71 | reading the fields of a url element consumes input |
| SeoUrl.ReadUrl | apps/web/src/lib/seo/url.js:72 | reading a url element consumes input |
| SeoUrl.ReadElementTag | apps/web/src/lib/seo/url.js:67 | an element written with escaped text reads back as that text |
| SeoUrl.PartStart | apps/web/src/lib/seo/url.js:68-71 | an optional part, present or not, is followed by a tag |
| SeoUrl.ReadOptionalPart | apps/web/src/lib/seo/url.js:68-70 | an optional part reads back as the field shown, or absent |
| SeoUrl.ReadFieldsXml | apps/web/src/lib/seo/url.js:66-72 | the fields written read back, empty ones absent |
| SeoUrl.ReadUrlXml | apps/web/src/lib/seo/url.js:66-72 | a url element reads back as its entry, empty fields absent |
| SeoUrl.AsReadAll | apps/web/src/lib/seo/url.js:65-75 | the entries as read back, one for one |
| SeoUrl.ReadBody | apps/web/src/lib/seo/url.js:65-76 | the body followed by the closing tag reads back as the entries in order |
| SeoUrl.ReadRender | apps/web/src/lib/seo/url.js:54-82 | reading the sitemap back gives the kept entries in order, each as given except that empty optional fields come back absent |
| SeoUrl.EntriesExample | apps/web/test/seo-url.test.mjs:33-41 | the test's element becomes one entry at the site root |
| SeoUrl.SitemapExample | apps/web/test/seo-url.test.mjs:33-41 | the test's sitemap reads back as its one entry with every field |

## Left out

- `hash64` and the Zobrist hashing in `solver/state.rs` are left out. The propagation fixpoint compares whole states instead, because a hash only speeds that comparison up.
- Floating point in `difficulty.rs` is left out. `Difficulty.Score` takes the rounded total as a parameter. `Difficulty.Report` takes the rounded total and the first-trigger figures as parameters.
- The observer and statistics `HashMap`s, `rule_type_to_string`, and the statistics-only fields of `DifficultyStats` are left out. They only record what happened and decide nothing.
- `generate.rs`, `lib.rs` and `debug.rs` are not part of this model. Neither are the serde and wasm glue or JSON parsing.
- `solve_masks_limit_with_stats` has an early return for a Black-cell conflict. It is left out because it cannot fire on a freshly built state, where Black cells are set before anything else.
- Analysis: after a failed propagation, the source reads `is_fully_decided` and the segment statistics from the partially propagated board, because propagation mutates in place. The model reads the board from before that propagation.
- The search in `solver/mod.rs` checks the solution limit between branches. The backtracking in `solver.rs` checks it only at leaves. Each model follows its own source.
- Node's lenient `Buffer` base64 decoding is left out. Decoding follows the forgiving-base64 decode of `atob`: ASCII white space and `=` padding are removed, then any other character outside the alphabet is rejected.
- V8's roll-over of out-of-range dates is left out. A date that does not exist is rejected.
- Board.Get, Board.GetId: in the source, a row or id past the board panics, because the row vector has `size` entries (`state.rs:56-57`, `state.rs:102-133`), and a column of 32 or more overflows the 32-bit shift. The model totalises these reads to unknown. A column from `size` to 31 reads an empty bit in the source, which is unknown in the model as well.
- Ymd.AddDays: a `delta` so large that the floating-point day arithmetic itself loses precision is not modelled. Past the time-value range the model gives "NaN-NaN-NaN", as the source does.
- `packLevelBytes`' check for a non-array argument is left out. The model's input is always a sequence.
- The progress store functions in `progress.js` (lines 102-205: readStore, writeStore, upsert, delete, list, clear) are left out. They are localStorage I/O around the normalisation that is modelled. `progress.d.ts` also declares a `normalizeMask` that `progress.js` does not define.
- The localStorage reads and writes of `tutorial.js` (lines 30-64) and `getGlobalStorage` in `ui-prefs.js` (lines 17-22) are left out. They are host I/O. The storage is a parameter instead.
- JavaScript numbers are modelled as integers. A non-string `dateYmd` is treated as absent.
- The JavaScript string order is compared by code unit of `char`. UTF-16 surrogate pairs are not treated specially.
- Marks: a non-integer number is treated like any other non-mark value.
- Stats.StreakCounts: stated only for windows within four-digit years (year 1000 or later), where a date is written in the shape it is read in.
- Stats.TrendDates: stated only for windows within four-digit years (year 1000 or later), for the same reason.
- SeoUrl.StripFallback: only the `catch` fallback of `stripQueryAndHash` is modelled. The branch that parses the URL belongs to the host URL parser.
- SeoUrl.NormalizeSiteUrl: the URL parser is the parameter `UrlLib`, so the origin and the resolution are what it reports. A null `siteUrl` or `href` is not modelled.
- SeoUrl.RobotsLines: non-string disallow entries, a non-boolean `allowAll` and a null input are not modelled.
- SeoUrl.RenderSitemapXml: non-string url fields are not modelled. A null url element is modelled as one with every field absent, so it is filtered out.

## Findings

| source | as written | input that shows it | evidently intended | confidence | as-written member | corrected member |
|---|---|---|---|---|---|---|
| crates/engine/src/date_seed.rs:55 | `days_from_civil` computes the era as `(if y >= 0 { y } else { y - 399 }).div_euclid(400)`, which rounds down twice for negative years | 28 February of year -1 gives -719836 and 1 March of year -1 gives -719834: one day is skipped | the era is `y.div_euclid(400)`, so consecutive days get consecutive numbers | not executed (unreachable from `date_to_seed_ymd`, whose year text cannot hold a minus sign) | DateSeed.DaysFromCivilAsWritten | Calendar.DaysFromCivil |
| apps/web/src/lib/stats.js:66-67 | `summarizeByKind` reads `e.kind` from every entry the reset filter keeps, and with no reset the filter keeps a null entry | `summarizeByKind([null])` throws a TypeError | null entries are skipped, as `buildDailyTrend` and `bestDaily` skip them | not executed | Stats.SummarizeAsWritten | Stats.Summarize |
