# Tag on an N×N board, modelled in Dafny

Tag is played on an N×N grid of cells, each holding `X`, `O` or `Empty`.
Players take turns filling Empty cells. A player wins by holding a
*transversal*: one cell in every row, all in distinct columns, all carrying
their piece. The program behind this model is written in Rust. It has five
parts, and this project models each of them.

1. The board (`seqs.dfy`, `pieces.dfy`, `grids.dfy`, `board.dfy`):
   - pieces, and their derived orders;
   - the row-major `Board`, with bounds-checked `piece_at`/`place`,
     `is_full`, `invert` and in-place `transpose`;
   - `has_win`, a backtracking search for a perfect matching between rows
     and columns;
   - canonicalisation: `row_cmp`, `standardize`, `is_standard` and
     `fully_standardize`.
2. The coordinate-tracking canonicaliser (`scrambled.dfy`,
   `legacy_scrambled.dfy`):
   - the same canonicalisation, run on cells that remember their original
     coordinate, so that a move chosen on the canonical board can be mapped
     back to the real one;
   - the older two-level variant, whose `standardize` is a stub.
3. The outcome order and the memoised negamax searches (`outcomes.dfy`,
   `search.dfy`, `lazy.dfy`):
   - `MoveValue`'s hand-written total order;
   - the depth-bounded `analyze` of `AI` and `AiSerial`;
   - the exhaustive `analyze` of `AiLazy`, with its win short-circuit and
     `equivalent_move`.
4. The bottom-up solver (`ground_up.dfy`):
   - `BoardIterator`, which enumerates boards by piece counts using
     Williams' prefix-shift successor for multiset permutations;
   - `build_strategy`, a dynamic program run layer by layer over the number
     of Empty cells.
5. The input validators (`user_input.dfy`): board size, depth, move syntax,
   `coord_from_str` and the placement check.

## How the model is built

- **Grids.** A grid is a `seq<Piece>` read row-major, so cell `(r, c)` of
  an `n`-wide grid sits at `r * n + c`. Every operation on boards is first
  defined as a function on grids in `Grids`. The classes then reassign their
  `grid` field to match those functions.
- **Sorting.** `sort_unstable_by` is modelled as an insertion sort by the
  same comparator. The model proves that this sort returns a permutation of
  its input and that the result is sorted.
- **Cache.** A search engine's `HashMap<Board, MoveAnalysis>` is a
  `map<seq<Piece>, MoveAnalysis>` field. Its key is the grid, since the
  board's `Hash` uses the grid alone.
- **Coordinate tracking.** A `ScrambledBoard` carries a ghost `origin`: the
  board its spaces were taken from. Its class invariant `Tracks` says two
  things:
  - the carried coordinates are a permutation of all N² coordinates;
  - each space holds the piece `origin` has at that space's coordinate.
  `to_original_board` rebuilds `origin`.
- **Calling conventions.** The two API generations (`place(p, row, col)` and
  `place(p, Coord)`) are modelled as one `Board`, following `src/board.rs`.
- **Methods the engines call but `src/scrambled_board.rs` does not
  define.** `AiSerial` and `AiLazy` call `ScrambledBoard::from_board`,
  `to_board` and `Space::to_coord`. The model reads them as follows:
  - `from_board` is the `From<Board>` conversion (`src/scrambled_board.rs:14`);
  - `to_board` is `Board::from(&ScrambledBoard)`, the bare grid
    (`src/board.rs:250-264`);
  - `to_coord` is the coordinate the space carries (`src/space.rs:50-53`).
- **Random choices.** Each one becomes a `pick: nat` parameter, and the
  chosen element is `options[pick % |options|]`.
- **Panics.** A `.unwrap()` or `.expect()` that can fail becomes a `None`
  result. One the caller rules out becomes a precondition.

## Model

| member | source | states |
|---|---|---|
| Pieces.Inverse | src/space.rs:13-19 | only Empty maps to Empty, and X and O never map to themselves; `src/piece.rs:12-18` is the same match |
| Pieces.InverseInvolution | src/piece.rs:12-18 | inverting a piece twice gives it back |
| Pieces.ComparePieces | src/space.rs:5-10 | the derived order: Equal exactly for the same piece, with X below O below Empty |
| Pieces.CompareCoords | src/space.rs:42-46 | the derived order on coordinates is lexicographic: row first, then column |
| Pieces.CompareSpaces | src/space.rs:49-53 | spaces compare Equal exactly when equal, and by piece first when the pieces differ |
| Pieces.CompareSpacesReverse | src/space.rs:49-53 | swapping the operands reverses the comparison |
| Pieces.CompareNat | src/ai/ai.rs:28 | `cmp` on integers: Less, Equal and Greater exactly as `<`, `==` and `>` |
| Pieces.CompareSeqEqual | src/board.rs:172 | the lexicographic order on piece vectors says Equal exactly for equal vectors |
| Pieces.CompareSeqReverse | src/board.rs:172 | swapping the operands of the vector order reverses it |
| Pieces.CompareSeqTransitive | src/board.rs:190 | the vector order is transitive |
| Seqs.Chunks | src/board.rs:161 | `chunks(n)`: the pieces concatenate back to the input, and each piece is non-empty and at most `n` long |
| Seqs.ChunksOfSquare | src/board.rs:161 | a grid of `k * n` cells splits into exactly `k` rows of `n` cells |
| Seqs.InsertionSort | src/board.rs:162 | `sort_unstable_by` returns a permutation of its input |
| Seqs.InsertionSortSorted | src/board.rs:162 | and, for a total comparator, a sorted one |
| Seqs.InsertionSortMap | src/scrambled_board.rs:189-193 | sorting commutes with a map that both comparators agree on, so sorting rows of spaces sorts their bare rows |
| Seqs.FlattenPermutation | src/board.rs:163 | rearranging rows rearranges the flattened grid |
| Grids.PieceAt | src/board.rs:67-85 | `piece_at` is Ok exactly when `row * size + col` is within the grid, and then gives that cell |
| Grids.PieceAtBounds | src/board.rs:71-85 | inside the board `piece_at` reads the cell; a row past the edge is RowIndexOutOfBounds; any other failure is ColIndexOutOfBounds |
| Grids.PieceAtAliases | src/board.rs:67-85 | column `size` of a non-last row is accepted, and reads the first cell of the next row |
| Grids.Placed | src/board.rs:87-94 | `place` succeeds exactly on an Empty cell, then sets that cell to `p` and changes no other cell; otherwise the error is `piece_at`'s or SpaceOccupied |
| Grids.PlacedCount | src/board.rs:87-94 | placing a piece removes exactly one Empty cell |
| Grids.Inverted | src/board.rs:100-104 | `invert` keeps the length of the grid |
| Grids.InvertedInvolution | src/board.rs:100-110 | inverting twice restores the grid |
| Grids.InvertedCounts | src/board.rs:100-104 | inverting keeps the Empty count and swaps the X and O counts |
| Grids.HasWinCorrect | src/board.rs:112-141 | `has_win(p)` holds exactly when some bijection σ from rows to columns has cell `(r, σ(r))` equal to `p` for every row r |
| Grids.MatchSound | src/board.rs:118-141 | a successful `has_win_recursive` yields a matching of the remaining rows into the remaining columns |
| Grids.MatchComplete | src/board.rs:118-141 | if such a matching exists, `has_win_recursive` finds one |
| Grids.TransposeSquare | src/board.rs:143-152 | the nested loop of swaps leaves cell `(r, c)` holding what was at `(c, r)` |
| Grids.TransposedAt | src/board.rs:143-152 | transposing moves cell `(c, r)` to `(r, c)` |
| Grids.TransposedInvolution | src/board.rs:143-152 | transposing twice restores the grid |
| Grids.TransposedPermutation | src/board.rs:143-152 | transposing only moves cells |
| Grids.Transposed | src/board.rs:154-158 | `transposed` keeps the size of the grid |
| Grids.Swap | src/board.rs:149 | `swap` exchanges two cells and keeps every piece |
| Grids.TransposedMap | src/scrambled_board.rs:81-91 | transposing commutes with a cell-wise map, such as dropping coordinates |
| Grids.RowCmpEqual | src/board.rs:217-237 | `row_cmp` says Equal only for identical rows |
| Grids.RowCmpReverse | src/board.rs:217-237 | swapping the rows reverses `row_cmp` |
| Grids.RowCmpTransitive | src/board.rs:217-237 | `row_cmp` is transitive |
| Grids.RowLeTotal | src/board.rs:217-237 | "not Greater" under `row_cmp` is a total preorder, so the sort is well defined |
| Grids.SortRowsOfGrid | src/board.rs:161-163 | sorting the rows of a square grid keeps its size and its cells, and leaves the rows in `row_cmp` order |
| Grids.Stages | src/board.rs:160-175 | each step of `standardize` keeps the grid's size |
| Grids.RowsSorted | src/board.rs:161-163 | sorting the rows keeps the size of the grid |
| Grids.Oriented | src/board.rs:171-174 | orienting the grid keeps its size |
| Grids.Standardized | src/board.rs:160-175 | `standardize` keeps the size of the grid |
| Grids.StagesPermutation | src/board.rs:160-175 | each step of `standardize` only permutes cells |
| Grids.StandardizedPermutation | src/board.rs:160-175 | `standardize` only permutes cells, so it keeps every piece count |
| Grids.StandardizedNotAboveTranspose | src/board.rs:171-174 | after `standardize` the grid is lexicographically at most its own transpose |
| Grids.Canonical | src/board.rs:177-181 | the result of `fully_standardize` is a permutation of the grid, and a standard grid is left unchanged |
| Grids.CanonicalUnfold | src/board.rs:177-181 | a grid that is not standard is standardized once more, then the loop goes on |
| Boards.Board.constructor | src/board.rs:62-65 | `Board::new`: every cell is Empty |
| Boards.Board.FromGrid | src/board.rs:240-248 | a board over a grid of `size²` cells |
| Boards.Board.Place | src/board.rs:87-94 | on success the grid is `Placed`; on error the grid is unchanged and the error is `Placed`'s |
| Boards.Board.Invert | src/board.rs:100-104 | the grid becomes its inverse |
| Boards.Board.Inverse | src/board.rs:106-110 | a fresh inverted copy; this board is unchanged |
| Boards.Board.Transpose | src/board.rs:143-152 | the grid becomes its transpose, as a permutation of its cells |
| Boards.Board.Transposed | src/board.rs:154-158 | a fresh transposed copy |
| Boards.Board.Standardize | src/board.rs:160-175 | the grid becomes `Standardized` of the old grid, as a permutation of its cells |
| Boards.Board.FullyStandardize | src/board.rs:177-181 | when the loop ends the board is standard; a standard board is unchanged; cells are only permuted |
| Scrambled.Bare | src/scrambled_board.rs:32-34 | `bare_grid` keeps each space's piece, in order |
| Scrambled.AllCoordsExactly | src/scrambled_board.rs:14-29 | the coordinates `from` assigns are distinct, and are exactly the in-range ones |
| Scrambled.Coords | src/scrambled_board.rs:14-29 | the coordinates the spaces carry, in order |
| Scrambled.Count | src/scrambled_board.rs:186-188 | a row has at most as many spaces holding `p` as it has spaces |
| Scrambled.SpaceRowCmpBare | src/scrambled_board.rs:164-193 | the space `row_cmp` is the board `row_cmp` of the bare rows |
| Scrambled.BareSortRows | src/scrambled_board.rs:112-114 | sorting rows of spaces, then dropping coordinates, is sorting the bare rows |
| Scrambled.SpaceRowLeBare | src/scrambled_board.rs:189-193 | two rows of spaces are in order exactly when their bare rows are |
| Scrambled.SpaceRowsSorted | src/scrambled_board.rs:112-114 | sorting rows of spaces keeps the size and only permutes the spaces |
| Scrambled.OrientedSpaces | src/scrambled_board.rs:122-125 | orienting the spaces keeps the size and only permutes the spaces |
| Scrambled.SpaceStages | src/scrambled_board.rs:111-126 | each step of `standardize` only permutes the spaces |
| Scrambled.StandardizedSpaces | src/scrambled_board.rs:111-126 | `standardize` only permutes the spaces |
| Scrambled.SpaceStagesBare | src/scrambled_board.rs:111-126 | each step on spaces, read bare, is the same step of the board's `standardize` |
| Scrambled.StandardizedSpacesBare | src/scrambled_board.rs:111-126 | the bare grid after `standardize` is the board `standardize` of the bare grid |
| Scrambled.StandardizedSpacesNotAboveTranspose | src/scrambled_board.rs:122-125 | after `standardize` the bare grid is at most the transpose's bare grid |
| Scrambled.IsStandardBare | src/scrambled_board.rs:140-154 | `is_standard` of the spaces is `is_standard` of the bare board |
| Scrambled.TracksPermutation | src/scrambled_board.rs:81-126 | moving spaces around keeps the coordinates a permutation of all coordinates, each carrying its original piece |
| Scrambled.TracksDistinct | src/scrambled_board.rs:14-29 | no two spaces carry the same coordinate |
| Scrambled.TracksCovers | src/scrambled_board.rs:36-42 | every coordinate is carried by some space |
| Scrambled.TracksWritesAll | src/scrambled_board.rs:36-42 | placing each space at its coordinate writes every cell of the new board |
| Scrambled.FromGridTracks | src/scrambled_board.rs:14-29 | the spaces `from` builds track the board: flat index `i` carries `(i / size, i % size)` |
| Scrambled.TracksPlace | src/scrambled_board.rs:44-50 | placing a piece keeps the tracking, with the original board changed at the carried coordinate |
| Scrambled.SpaceAtIn | src/scrambled_board.rs:60-75 | a row out of range is RowIndexOutOfBounds; otherwise a column out of range is ColIndexOutOfBounds; otherwise the space at `row * size + col`, with no aliasing |
| Scrambled.SpacePieceAt | src/scrambled_board.rs:77-79 | `piece_at` is `space_at`'s piece or its error |
| Scrambled.ScrambledBoard.FromBoard | src/scrambled_board.rs:14-29 | the bare grid is the board, and the coordinates are all coordinates in row-major order |
| Scrambled.ScrambledBoard.Clone | src/scrambled_board.rs:6 | a copy with the same spaces |
| Scrambled.ScrambledBoard.ToOriginalBoard | src/scrambled_board.rs:36-42 | the board rebuilt from the carried coordinates is the original board |
| Scrambled.ScrambledBoard.ToBoard | src/board.rs:250-264 | `Board::from(&ScrambledBoard)` is the bare grid |
| Scrambled.ScrambledBoard.Place | src/scrambled_board.rs:44-50 | succeeds exactly on an in-range Empty cell and changes only that space's piece, keeping its coordinate; errors leave everything unchanged |
| Scrambled.ScrambledBoard.Transpose | src/scrambled_board.rs:81-91 | the spaces are transposed and the original board is unchanged |
| Scrambled.ScrambledBoard.Transposed | src/scrambled_board.rs:93-97 | a fresh transposed copy |
| Scrambled.ScrambledBoard.Invert | src/scrambled_board.rs:99-103 | pieces are inverted and coordinates kept, so the original board is inverted too |
| Scrambled.ScrambledBoard.Inverse | src/scrambled_board.rs:105-109 | a fresh inverted copy |
| Scrambled.ScrambledBoard.Standardize | src/scrambled_board.rs:111-126 | the spaces become `StandardizedSpaces` and the original board is unchanged; the bare grid becomes the board `standardize` of the old one |
| Scrambled.ScrambledBoard.FullyStandardize | src/scrambled_board.rs:128-132 | it reports success exactly when the board ends standard; a standard board is unchanged; the original board is kept |
| LegacyScrambled.Relabelled | src/ai/scrambled_board.rs:69-74 | `transpose` swaps a space's row and column labels and keeps its piece |
| LegacyScrambled.RelabelledInvolution | src/ai/scrambled_board.rs:62-75 | relabelling twice restores the space |
| LegacyScrambled.Inverted | src/ai/scrambled_board.rs:83-87 | `invert` inverts a space's piece and keeps its coordinate |
| LegacyScrambled.InvertedInvolution | src/ai/scrambled_board.rs:83-87 | inverting a space twice restores it |
| LegacyScrambled.FromBoardFlat | src/ai/scrambled_board.rs:18-30 | rows built from a board read back as that board |
| LegacyScrambled.ToBoardDone | src/ai/scrambled_board.rs:32-38 | placing every space at its label rebuilds the pieces, transposed when the labels are |
| LegacyScrambled.LegacyScrambledBoard.FromBoard | src/ai/scrambled_board.rs:18-30 | the space at `(r, c)` holds the board's piece there and the label `(r, c)` |
| LegacyScrambled.LegacyScrambledBoard.Flat | src/ai/scrambled_board.rs:18-38 | the pieces read row-major form a grid of `size²` cells |
| LegacyScrambled.LegacyScrambledBoard.ToBoard | src/ai/scrambled_board.rs:32-38 | the rebuilt board is the pieces, transposed when the labels have been transposed |
| LegacyScrambled.LegacyScrambledBoard.PieceAt | src/ai/scrambled_board.rs:48-56 | a row out of range is RowIndexOutOfBounds; otherwise a column out of range is ColIndexOutOfBounds; otherwise the stored piece |
| LegacyScrambled.LegacyScrambledBoard.Standardize | src/ai/scrambled_board.rs:58-60 | the stub changes nothing |
| LegacyScrambled.LegacyScrambledBoard.Transpose | src/ai/scrambled_board.rs:62-75 | only the labels are swapped: pieces and positions are unchanged |
| LegacyScrambled.LegacyScrambledBoard.Transposed | src/ai/scrambled_board.rs:77-81 | a fresh copy with the labels swapped |
| LegacyScrambled.LegacyScrambledBoard.Invert | src/ai/scrambled_board.rs:83-87 | every piece is inverted and every label kept |
| LegacyScrambled.LegacyScrambledBoard.Inverse | src/ai/scrambled_board.rs:89-93 | a fresh inverted copy |
| LegacyScrambled.LegacyScrambledBoard.Clone | src/ai/scrambled_board.rs:11 | a copy with the same spaces |
| LegacyScrambled.RoundTrip | src/ai/scrambled_board.rs:18-38 | `to_board(from_board(b))` is `b` |
| LegacyScrambled.TransposedRoundTrip | src/ai/scrambled_board.rs:18-81 | `to_board` after `transpose` is the transposed board |
| Outcomes.CmpAcrossVariants | src/ai/ai.rs:23-54 | across variants, every Lose < every Tie < every Unknown < every Win |
| Outcomes.CmpWithinVariant | src/ai/ai.rs:28-48 | within Lose and Tie the smaller count is smaller; within Unknown and Win the larger count is smaller |
| Outcomes.CmpEqual | src/ai/ai.rs:9-54 | `cmp` says Equal exactly for equal values |
| Outcomes.CmpReverse | src/ai/ai.rs:23-54 | swapping the operands reverses `cmp` |
| Outcomes.CmpTransitive | src/ai/ai.rs:23-54 | `cmp` is transitive, so it is a total order |
| Outcomes.Flip | src/ai/ai.rs:145-150 | the count grows by one; Lose and Win swap; Tie and Unknown stay |
| Outcomes.FlipReversesDecided | src/ai/ai.rs:145-150 | among won and lost values, flipping reverses the order |
| Outcomes.Increment | src/players/ai_ground_up.rs:145-150 | the count grows by one and the variant is kept |
| Outcomes.MaxValue | src/ai/ai.rs:173-174 | `max()`: an element at least every element |
| Outcomes.MinValue | src/players/ai_ground_up.rs:163-166 | `min()`: an element at most every element |
| Outcomes.MinNat | src/ai/ai.rs:167-169 | the shallowest depth: an element at most every element |
| Outcomes.Attaining | src/ai/ai.rs:175-181 | the moves whose value equals the best: every one is listed, nothing else is, and there is one when the best is attained |
| Outcomes.AttainingChildren | src/ai/ai.rs:175-181 | a move is an option exactly when its child's evaluation equals the best |
| Outcomes.Summarize | src/ai/ai.rs:167-187 | the record is the best child value, exactly the moves attaining it (never none), and one more than the shallowest child depth |
| Outcomes.EmptyCellsMembers | src/ai/ai.rs:194-204 | `available_spaces` lists exactly the Empty cells of the board |
| Outcomes.EmptyCellsBeforeCount | src/ai/ai.rs:194-204 | it lists as many cells as there are Empty cells, so each just once |
| Outcomes.EmptyCellsOfUnfull | src/ai/ai.rs:194-204 | a board that is not full has an available space |
| Search.AvailableSpaces | src/ai/ai.rs:194-204 | the nested loop returns the Empty cells in row-major order |
| Search.ChildKey | src/players/ai_serial.rs:118-123 | the child's key is a grid of the same size |
| Search.ChildKeyCount | src/players/ai_serial.rs:118-123 | a child has one Empty cell fewer, since inverting and standardizing keep the Empty count |
| Search.Child | src/players/ai_serial.rs:118-123 | the board built for a move is the placed, inverted and (for `AiSerial`) standardized grid |
| Search.PlacedInverted | src/players/ai_serial.rs:118-120 | placing on an available cell succeeds, and the child is its inverse |
| Search.KeyOf | src/players/ai_serial.rs:121-123 | the key is standardized by `AiSerial`, and left alone by the stub of `AI` |
| Search.Flipped | src/players/ai_serial.rs:125-130 | only the evaluation changes, and it is flipped |
| Search.Negamax.Serial | src/players/ai_serial.rs:41-54 | `new` clamps the depth to at most `size²` and starts with an empty cache |
| Search.Negamax.Legacy | src/ai/ai.rs:73-75 | `AI::new` keeps the depth as given |
| Search.Negamax.Analyze | src/players/ai_serial.rs:75-158 | a deep-enough cached record is returned unchanged; a lost board is Lose(0) and a full board Tie(0), both with no options and at the engine's depth; at depth 0 the result is Unknown(0) with every available space, at depth 0; otherwise it is the expansion; in every case the result is cached under the board |
| Search.SummaryDepth | src/players/ai_serial.rs:134-135 | a record is one level deeper than its shallowest child, so it reaches `min(depth_to_use, depth)` when every child reaches `min(depth_to_use - 1, depth)` |
| Search.Negamax.Expand | src/players/ai_serial.rs:115-157 | the summary of the flipped children, one per available move, each searched a level shallower and cached |
| Search.Negamax.Store | src/players/ai_serial.rs:155 | the cache gains exactly this entry |
| Search.Negamax.SearchChildren | src/players/ai_serial.rs:116-133 | one flipped analysis per available move, in order, each deep enough and its key cached |
| Search.Negamax.SearchChild | src/players/ai_serial.rs:118-123 | one child is analysed a level shallower and its key cached |
| Search.Negamax.ChooseMove | src/players/ai_serial.rs:56-73 | for `AiSerial`, the move is the coordinate carried by the space at the option picked from the cached record of the canonicalised view of the game board; for `AI`, it is the option picked from the record of the view itself; either way an Empty cell of the game board |
| Search.Negamax.PickBest | src/players/ai_serial.rs:64-71 | the key ends up cached, the choice is the option `pick` selects from its record (None exactly when the record offers none), and it is an available space of the key |
| Search.Negamax.ChooseScrambled | src/players/ai_serial.rs:56-73 | the spaces track the (possibly inverted) game board and hold its canonical form; the choice is the option picked from that form's cached record; the move is the coordinate the space at the choice carries, an Empty cell of the game board |
| Search.Negamax.ChooseLegacy | src/ai/ai.rs:82-96 | every label is the position it sits at and `standardize` is a stub, so the move is exactly the option picked from the cached record of the (possibly inverted) game board, an Empty cell of it |
| Search.ScrambledFor | src/players/ai_serial.rs:57-62 | the scrambled board tracks the (possibly inverted) game board, and its bare grid is that board standardized |
| Search.OriginalMove | src/players/ai_serial.rs:72 | the move is the coordinate carried by the space at the chosen cell, and it is an Empty cell of the game board |
| Search.MapBack | src/players/ai_serial.rs:72 | an Empty cell of the canonical board carries the coordinate of an Empty cell of the real board |
| Search.MapBackLegacy | src/ai/ai.rs:95 | the same for the old board, whose stub `standardize` moves nothing |
| Search.Choose | src/players/ai_serial.rs:68-71 | the random choice: None exactly when there are no options, otherwise one of them |
| Search.Viewed | src/players/ai_serial.rs:58-61 | the view keeps the length, and inverts every cell exactly when the piece to play is not the engine's |
| Lazy.AfterMove | src/players/ai_lazy.rs:84-87 | the canonical position after a move has the board's size |
| Lazy.AfterMoves | src/players/ai_lazy.rs:82-90 | one canonical position per move, in order |
| Lazy.EquivalentAmongMembers | src/players/ai_lazy.rs:91-98 | a move is kept exactly when it leads to the same canonical position as the reference move |
| Lazy.EquivalentsExactly | src/players/ai_lazy.rs:79-100 | the equivalent moves are exactly the Empty cells leading to the reference move's position, the reference included |
| Lazy.EquivalentAmong | src/players/ai_lazy.rs:91-98 | the moves kept are among those scanned |
| Lazy.Equivalents | src/players/ai_lazy.rs:79-100 | every equivalent move is an available space |
| Lazy.AiLazy.constructor | src/players/ai_lazy.rs:46-53 | an engine with an empty cache |
| Lazy.AiLazy.Analyze | src/players/ai_lazy.rs:102-182 | any cached record is returned as it is; a lost board is Lose(0) and a full board Tie(0), with no options; any other board is explored: the record concludes the search of the children, which are the flipped records the cache holds for them; every record is cached at MAX_DEPTH and no record cached before changes; recursion ends because each child has one Empty cell fewer |
| Lazy.AiLazy.Expand | src/players/ai_lazy.rs:129-181 | the record concludes the search of the children, each the flipped cached record of its child, and is cached; no record cached before changes |
| Lazy.AiLazy.AnalyzeChild | src/players/ai_lazy.rs:137 | the returned record is the one cached for the child; no record cached before changes |
| Lazy.AiLazy.SearchChildren | src/players/ai_lazy.rs:130-159 | the children are searched in row-major order, stopping at the first Win; each value is the flipped record cached for that child; no record cached before changes |
| Lazy.AiLazy.SearchChild | src/players/ai_lazy.rs:131-145 | the next child is cached, the value returned is its record flipped, and no record cached when the search began changes |
| Lazy.AiLazy.Store | src/players/ai_lazy.rs:179 | the record is stored under the board and nothing else in the cache changes |
| Lazy.ChildrenCachedAt | src/players/ai_lazy.rs:131-145 | the value of the `i`th child searched is the record cached under the key of the position after the `i`th move, flipped |
| Lazy.StillCached | src/players/ai_lazy.rs:131-159 | as long as no cached record changes, the children searched keep their cached records |
| Lazy.CachedOneMore | src/players/ai_lazy.rs:131-159 | records already cached do not change, so the prefix of cached children grows by the one just analysed |
| Lazy.NotAChild | src/players/ai_lazy.rs:179 | storing a board's record keeps its children's records, since each child has one Empty cell fewer |
| Lazy.ConcludesSound | src/players/ai_lazy.rs:147-181 | a concluded record offers at least one move, only available ones, at MAX_DEPTH |
| Lazy.Conclude | src/players/ai_lazy.rs:147-178 | at a winning child the only option is that move; otherwise the best value and exactly the moves attaining it |
| Lazy.AiLazy.ChooseMove | src/players/ai_lazy.rs:55-77 | the initial move is the carried coordinate of the option picked from the canonical board's record; when deterministic it is the move; otherwise the move is one equivalent to it for the engine's piece, and there is one exactly when there is an initial move; any move is an Empty cell of the game board |
| Lazy.AiLazy.ChooseInitial | src/players/ai_lazy.rs:56-71 | the spaces track the (possibly inverted) game board and hold its canonical form; the choice is the option picked from that form's cached record; the move is the coordinate the space at the choice carries, an Empty cell of the game board |
| Lazy.AiLazy.PickBest | src/players/ai_lazy.rs:65-70 | the key ends up cached, the choice is the option `pick` selects from its record, an available space of the key; no record cached before changes |
| Lazy.AiLazy.EquivalentMove | src/players/ai_lazy.rs:79-100 | there is an answer exactly when the reference is a legal move, and it is a move equivalent to it |
| Lazy.ScanMoves | src/players/ai_lazy.rs:82-90 | the legal moves in row-major order, each with the canonical position it leads to |
| Lazy.ScanRow | src/players/ai_lazy.rs:83-89 | scanning one more row extends both lists by that row's legal moves |
| Lazy.ScanCell | src/players/ai_lazy.rs:84-88 | scanning one more cell extends both lists exactly when the move is legal |
| Lazy.TryMove | src/players/ai_lazy.rs:84-87 | a position exactly when `place` succeeds, which is exactly when the cell is available |
| Lazy.Matching | src/players/ai_lazy.rs:91-98 | the moves whose position equals the reference position, in order |
| Lazy.IndexOf | src/players/ai_lazy.rs:92 | the position of a move in a list: absent exactly when the move is not listed, and otherwise an index holding it |
| Lazy.RowStartProduct | src/players/ai_lazy.rs:82-83 | the rows before `row` cover `row * size` cells |
| GroundUp.MultinomialFactorials | src/players/ai_ground_up.rs:275 | `multinomial` times the factorials of the counts is the factorial of their sum |
| GroundUp.MultinomialPositive | src/players/ai_ground_up.rs:275 | there is at least one arrangement |
| GroundUp.BinomialFactorials | src/players/ai_ground_up.rs:275 | the binomial coefficient is `n! / (k! (n-k)!)` |
| GroundUp.FirstAscent | src/players/ai_ground_up.rs:289-291 | the first position after the front where an element is below the next, or none when there is no such position |
| GroundUp.SuccessorIsPrefixShift | src/players/ai_ground_up.rs:284-304 | `permute` moves the front element to a later position and shifts the prefix before it left |
| GroundUp.Successor | src/players/ai_ground_up.rs:284-304 | `permute` keeps the length of the vector |
| GroundUp.SuccessorPermutation | src/players/ai_ground_up.rs:284-304 | `permute` keeps the length and the multiset of pieces |
| GroundUp.OneOfEachSteps | src/players/ai_ground_up.rs:284-304 | the six successors starting from X O Empty |
| GroundUp.OneOfEachCycle | src/players/ai_ground_up.rs:240-304 | from X O Empty the iterator visits all 6 = multinomial(1,1,1) arrangements, each once, then returns to the start |
| GroundUp.Repeat | src/players/ai_ground_up.rs:269-271 | `vec![p; k]` |
| GroundUp.RepeatCount | src/players/ai_ground_up.rs:269-271 | `vec![p; k]` holds `k` copies of `p` and nothing else |
| GroundUp.BoardIterator.FromCounts | src/players/ai_ground_up.rs:268-279 | X's, then O's, then Empties, with `len` the multinomial of the counts and nothing served yet |
| GroundUp.BoardIterator.Permute | src/players/ai_ground_up.rs:284-304 | the vector becomes its prefix-shift successor, so every piece count is kept |
| GroundUp.PrefixShift | src/players/ai_ground_up.rs:285-303 | the scan for the first ascent and the reinsertion compute the prefix-shift successor |
| GroundUp.BoardIterator.Next | src/players/ai_ground_up.rs:240-251 | after `len` boards, None with nothing changed; before that, the current vector, one more served, and the successor |
| GroundUp.FromMoveNumber | src/players/ai_ground_up.rs:259-266 | the counts sum to `size²` with `num_empty` Empties; the starting piece gets ceil(filled/2) and the other floor(filled/2) |
| GroundUp.FilledCounts | src/players/ai_ground_up.rs:260-263 | the starting piece's count is ceil(filled/2), the other's is floor(filled/2), and they sum to `filled` |
| GroundUp.NewIterator | src/players/ai_ground_up.rs:255-257 | full boards: no Empties |
| GroundUp.Mover | src/players/ai_ground_up.rs:87-91 | on full boards the piece that moved last is the solver's piece for odd sizes and the other piece for even ones |
| GroundUp.MoverFlips | src/players/ai_ground_up.rs:117 | one more Empty cell flips the piece that moved last |
| GroundUp.MoverMadeLastMove | src/players/ai_ground_up.rs:87-117 | the solver's piece made the last move exactly when an odd number of cells is filled |
| GroundUp.GrownKey | src/players/ai_ground_up.rs:137-141 | the key of a child is a grid of the same size |
| GroundUp.GrownKeyCount | src/players/ai_ground_up.rs:137-141 | a child has one Empty cell fewer |
| GroundUp.ChildKeys | src/players/ai_ground_up.rs:136-141 | one key per move, in order |
| GroundUp.ChildValues | src/players/ai_ground_up.rs:142-151 | defined exactly when every key is stored, and then each stored evaluation incremented |
| GroundUp.Evaluate | src/players/ai_ground_up.rs:97-172 | options are available moves, and a record without options is a won or full board |
| GroundUp.EvaluateDefined | src/players/ai_ground_up.rs:142-144 | an open board's record exists exactly when every child is already stored |
| GroundUp.EvaluateShape | src/players/ai_ground_up.rs:154-172 | the record is the maximum of the child values when the solver's piece made the last move and the minimum otherwise, as the code is written, with exactly the attaining moves |
| GroundUp.EvaluateBound | src/players/ai_ground_up.rs:154-170 | every child value is at most the evaluation when the solver's piece made the last move, and at least it otherwise |
| GroundUp.EvaluateAttained | src/players/ai_ground_up.rs:154-170 | some child attains the evaluation |
| GroundUp.EvaluateOptions | src/players/ai_ground_up.rs:159-172 | a move is an option exactly when its child's value equals the evaluation |
| GroundUp.ChildValueAt | src/players/ai_ground_up.rs:142-151 | the i-th child value is the incremented record of the i-th move's child |
| GroundUp.NotOwnChild | src/players/ai_ground_up.rs:136-151 | a board is never its own child, so recording it does not change its children's values |
| GroundUp.EvaluateFrame | src/players/ai_ground_up.rs:182 | recording the board, or a board it does not read, leaves its record unchanged |
| GroundUp.SolvedInsert | src/players/ai_ground_up.rs:182 | inserting a standard board's computed record keeps every stored record equal to what the dynamic program computes for it |
| GroundUp.BarePlaced | src/players/ai_ground_up.rs:137-141 | placing on the scrambled board places on its bare grid |
| GroundUp.AiGroundUp.constructor | src/players/ai_ground_up.rs:49-55 | an empty table |
| GroundUp.AiGroundUp.ChildKey | src/players/ai_ground_up.rs:137-141 | clone, place the other piece, fully standardize: the child's key |
| GroundUp.AiGroundUp.ChildValuesOf | src/players/ai_ground_up.rs:136-152 | the children's incremented values, or None at the first child not stored, where the source panics |
| GroundUp.AiGroundUp.ChildValueStep | src/players/ai_ground_up.rs:137-150 | one lookup: the values so far extended by the next child's incremented value, or None exactly when that child is not stored |
| GroundUp.AiGroundUp.Evaluation | src/players/ai_ground_up.rs:125-172 | the loop body computes `Evaluate` for the board and the piece that moved last |
| GroundUp.AiGroundUp.Record | src/players/ai_ground_up.rs:182 | the table gains this entry, and an entry already there is kept as it was |
| GroundUp.AiGroundUp.RecordFull | src/players/ai_ground_up.rs:94-112 | a standard full board is recorded, and no entry changes |
| GroundUp.AiGroundUp.RecordUnfull | src/players/ai_ground_up.rs:118-183 | a standard board is recorded; failure means a child was missing |
| GroundUp.AiGroundUp.RecordFullBoards | src/players/ai_ground_up.rs:93-112 | the full-board pass keeps every stored record |
| GroundUp.AiGroundUp.RecordLayer | src/players/ai_ground_up.rs:117-183 | one layer keeps every stored record |
| GroundUp.AiGroundUp.BuildStrategy | src/players/ai_ground_up.rs:85-185 | the table only grows, and stays the dynamic program's fixed point |
| GroundUp.AiGroundUp.Analyze | src/players/ai_ground_up.rs:76-83 | a stored record is returned without change; any answer is stored, for a standard board, and is what `build_strategy` computes |
| GroundUp.AiGroundUp.PickOption | src/players/ai_ground_up.rs:67-72 | a key already in the table gives the option `pick` selects from its record; any choice is that option of the key's record, and an available space of the key |
| GroundUp.AiGroundUp.ChooseMove | src/players/ai_ground_up.rs:57-74 | the spaces track the (possibly inverted) game board and hold its canonical form; the choice is the option picked from that form's record; the move is the coordinate the space at the choice carries, an Empty cell of the game board |
| UserInput.ValidateBoardSize | src/user_input.rs:31-42 | valid exactly for 1..=9; 0 and sizes over 9 get their own complaints |
| UserInput.ValidateDepth | src/user_input.rs:142-154 | valid exactly for 1..=size²; 0 and depths over size² get their own complaints |
| UserInput.ValidateMoveSyntax | src/user_input.rs:174-209 | valid exactly for two characters, an ASCII letter then a digit |
| UserInput.ToUpper | src/user_input.rs:219 | lower-case ASCII letters move up by 32, and nothing else changes |
| UserInput.WrappingSub | src/user_input.rs:224-229 | `u8` subtraction wrapping past zero |
| UserInput.CoordFromStr | src/user_input.rs:254-278 | both coordinates are below 256 |
| UserInput.LetterIndex | src/user_input.rs:260-266 | a letter's column is below 26 |
| UserInput.CoordFromStrMeaning | src/user_input.rs:254-278 | the column is the letter's place in the alphabet and the row is the digit minus one, with '0' wrapping to 255 |
| UserInput.CoordFromStrExamples | src/user_input.rs:254-278 | "a1" and "A1" both give (0, 0), and "c3" gives (2, 2) |
| UserInput.ValidatePlacement | src/user_input.rs:218-249 | valid exactly when placing X at the parsed coordinate succeeds; each error of `place` gets its complaint |
| UserInput.AcceptedMovePlaces | src/user_input.rs:218-249 | an accepted move can be placed by either piece |
| UserInput.PlacementComplaints | src/user_input.rs:224-249 | the row complaint appears exactly for a row past the edge; the occupied complaint only for a filled cell |
| UserInput.PlacementAcceptsColumnPastEdge | src/user_input.rs:218-249 | a column one past the edge of a non-last row is accepted when the first cell of the next row is Empty |
| UserInput.D1AcceptedOnThreeByThree | src/user_input.rs:218-249 | "D1" on an empty 3×3 board is accepted as (0, 3) |
| UserInput.ValidatePlacementInBounds | src/user_input.rs:218-249 | corrected check: valid exactly when the parsed cell is on the board and Empty |
| UserInput.InBoundsAgreesInside | src/user_input.rs:218-249 | inside the board the corrected check agrees with the original |
| UserInput.InBoundsRefusesColumnPastEdge | src/user_input.rs:218-249 | the corrected check refuses "D1" on a 3×3 board as a column out of bounds |

## Left out

- Concurrency: `src/players/ai_parallel.rs` and `src/ai/ai_multi.rs` are not
  part of this model. Their serial logic repeats `AiSerial::analyze` and
  `equivalent_move`.
- Randomness: `src/players/ai_random.rs` is not part of this model. Every
  other random choice is a `pick` parameter.
- Persistence (`cbor_path`, `save_strategy`, `load_strategy`), `Display`,
  `Debug`, `pretty` and `colorize` are output formatting and file I/O, and
  are not modelled.
- The inquire prompts (`get_board_size`, `get_depth`, `get_name`,
  `get_player`, `get_move`, `to_player`) are interactive I/O and are not
  modelled. `src/game.rs`, `src/main.rs`, `src/lib.rs`,
  `src/players/human.rs` and `src/players/mod.rs` are not part of this
  model.
- `From<T> for Board` computes the side with an `f32` square root. It is
  replaced by `Boards.Board.FromGrid`, whose precondition is that the length
  is `size²`.
- Grids.Canonical: `fully_standardize` loops until the board is standard.
  Its termination is not evident from the code. It is modelled with a
  `fuel` bound, and the methods report whether the board became standard
  within it. The ground-up solver's `rounds` is that bound.
- GroundUp.AiGroundUp.Analyze: when the key is still missing after
  `build_strategy`, the source recurses forever. The model returns None.
- GroundUp.OneOfEachCycle: that `permute` visits every distinct arrangement
  exactly once is proved only for the three-cell example, not in general.
- GroundUp.FromMoveNumber: a starting piece of Empty panics in the source.
  It is excluded by a precondition.
- Board size 0: `chunks(0)` panics in `standardize` (`src/board.rs:161`).
  The canonicalisation functions of `Grids` and the methods that use them
  (`Boards.Board.Standardize`, `Boards.Board.FullyStandardize`, the
  scrambled boards and the engines' `choose_move`) require a size above 0
  instead of modelling that panic.
- Search.Negamax.Analyze: the record states how the board's value follows
  from its children's flipped analyses, and that every child was cached. It
  does not say which cached record each child returned: a deeper
  re-analysis overwrites a record, so a child's record may have been
  replaced by the time the search of its siblings ends.
- Integer widths:
  - `MoveValue` counts are `u8` in the source but unbounded here;
  - depths and sizes are `usize` but unbounded here;
  - a game has at most 81 moves, so the counts cannot overflow.
- UserInput.WrappingSub: `as u8 - b'1'` panics in a debug build when the
  digit is '0'. The model follows the release build, which wraps.
- UserInput.ToUpper: only ASCII is modelled. `to_uppercase` of other
  characters, and the non-ASCII digits `is_numeric` accepts, are left out.
- Seqs.InsertionSort: `sort_unstable_by` may order rows that compare Equal
  in any way. Rows compare Equal only when identical, except the space rows
  of `src/scrambled_board.rs`, which can tie with different coordinates;
  there the model fixes one order.
- `HashMap` iteration order in `equivalent_move` is not modelled. The
  equivalent moves are listed in row-major order, and any one of them may be
  picked.

## Findings

| source | as written | input that shows it | evidently intended | confidence | as-written member | corrected member |
|---|---|---|---|---|---|---|
| src/user_input.rs:218-249 with src/board.rs:71-85 | the placement check accepts any coordinate `place` accepts, and `piece_at` only checks `row * size + col < size²`, so a column one past the edge is read as the first cell of the next row | "D1" on an empty 3×3 board is accepted as (0, 3), and the move is placed at (1, 0) | a column letter past the board is refused as "column D out of bounds" | medium, not executed | UserInput.D1AcceptedOnThreeByThree | UserInput.ValidatePlacementInBounds |
