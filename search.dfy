/** The depth-bounded memoised negamax search of `src/players/ai_serial.rs`
    (`AiSerial`) and of the older `src/ai/ai.rs` (`AI`). The two differ only
    in how a child position is turned into a cache key: `AiSerial`
    canonicalises it with one round of `standardize`, while `AI` goes through
    the older scrambled board, whose `standardize` is a stub. They also differ
    in their constructors: only `AiSerial::new` clamps the depth. */
module Search {
  import opened Pieces
  import opened Seqs
  import Grids
  import Boards
  import Scrambled
  import LegacyScrambled
  import opened Outcomes

  datatype Option<T> = None | Some(value: T)

  function Min(a: nat, b: nat): nat
  {
    if a < b then a else b
  }

  /** A summary is one level deeper than its shallowest child. */
  lemma SummaryDepth(moves: seq<Coord>, subs: seq<MoveAnalysis>, depthToUse: nat, depth: nat)
    requires |moves| == |subs| > 0 && depthToUse > 0
    requires forall j :: 0 <= j < |subs| ==> subs[j].depthUsed >= Min(depthToUse - 1, depth)
    ensures Summarize(moves, Map(subs, Flipped)).depthUsed >= Min(depthToUse, depth)
  {
    var ds := Depths(Map(subs, Flipped));
    var j := PositionOf(ds, MinNat(ds));
    assert ds[j] == subs[j].depthUsed;
  }

  /** `available_spaces`: scan the board row by row and collect every cell
      `piece_at` reports Empty. */
  method AvailableSpaces(b: Boards.Board) returns (result: seq<Coord>)
    requires b.Valid()
    ensures result == EmptyCells(b.grid, b.size)
  {
    var n := b.size;
    result := [];
    var row := 0;
    while row < n
      invariant row <= n && row * n <= n * n
      invariant result == EmptyCellsBefore(b.grid, n, row * n)
    {
      var col := 0;
      while col < n
        invariant col <= n && row * n + col <= n * n
        invariant result == EmptyCellsBefore(b.grid, n, row * n + col)
      {
        Grids.IdxBounds(n, row, col);
        Grids.IdxDivMod(n, row, col);
        Grids.PieceAtBounds(b.grid, n, Coord(row, col));
        if b.PieceAt(Coord(row, col)) == Grids.Ok(Empty) {
          result := result + [Coord(row, col)];
        }
        col := col + 1;
      }
      assert row * n + n == (row + 1) * n;
      Grids.MulMono(row + 1, n, n);
      row := row + 1;
    }
  }

  /** The cache key of the position after `p` is played at the Empty cell
      `c`: the board with `p` placed, inverted so that the engine's own
      piece is again to move, and canonicalised when `standardizes`. */
  function ChildKey(g: seq<Piece>, n: nat, p: Piece, c: Coord, standardizes: bool): (k: seq<Piece>)
    requires |g| == n * n && c in EmptyCells(g, n)
    ensures |k| == n * n
  {
    EmptyCellsMembers(g, n, c);
    Grids.PieceAtBounds(g, n, c);
    var placed := Grids.Placed(g, n, p, c).value;
    if standardizes then Grids.Standardized(Grids.Inverted(placed), n) else Grids.Inverted(placed)
  }

  /** A child key has one Empty cell fewer than its parent: placing a real
      piece fills one, and inverting and standardizing keep the count. */
  lemma ChildKeyCount(g: seq<Piece>, n: nat, p: Piece, c: Coord, standardizes: bool)
    requires |g| == n * n && c in EmptyCells(g, n) && p != Empty
    ensures Grids.Count(ChildKey(g, n, p, c, standardizes), Empty) + 1 == Grids.Count(g, Empty)
  {
    EmptyCellsMembers(g, n, c);
    Grids.PieceAtBounds(g, n, c);
    var placed := Grids.Placed(g, n, p, c).value;
    Grids.PlacedCount(g, n, p, c);
    Grids.InvertedCounts(placed);
    if standardizes {
      Grids.StandardizedPermutation(Grids.Inverted(placed), n);
    }
  }

  /** The loop body's child construction: clone, place, invert, scramble,
      standardize, and read the board back. */
  method Child(b: Boards.Board, p: Piece, c: Coord, standardizes: bool) returns (key: Boards.Board)
    requires b.Valid() && c in EmptyCells(b.grid, b.size)
    ensures fresh(key) && key.Valid() && key.size == b.size
    ensures key.grid == ChildKey(b.grid, b.size, p, c, standardizes)
  {
    EmptyCellsMembers(b.grid, b.size, c);
    var child := PlacedInverted(b, p, c);
    key := KeyOf(child, standardizes);
  }

  /** The first half of the child construction: clone, place, invert. */
  method PlacedInverted(b: Boards.Board, p: Piece, c: Coord) returns (child: Boards.Board)
    requires b.Valid() && c in EmptyCells(b.grid, b.size)
    ensures fresh(child) && child.Valid() && child.size == b.size
    ensures Grids.Placed(b.grid, b.size, p, c).Ok?
    ensures child.grid == Grids.Inverted(Grids.Placed(b.grid, b.size, p, c).value)
  {
    EmptyCellsMembers(b.grid, b.size, c);
    Grids.PieceAtBounds(b.grid, b.size, c);
    child := new Boards.Board.FromGrid(b.size, b.grid);
    var placed := child.Place(p, c);
    assert placed.Ok?;
    child.Invert();
  }

  /** The second half: scramble, standardize and read the board back,
      through the space-tracking board or the legacy one. */
  method KeyOf(child: Boards.Board, standardizes: bool) returns (key: Boards.Board)
    requires child.Valid() && child.size > 0
    ensures fresh(key) && key.Valid() && key.size == child.size
    ensures key.grid == if standardizes then Grids.Standardized(child.grid, child.size) else child.grid
  {
    if standardizes {
      var scrambled := new Scrambled.ScrambledBoard.FromBoard(child);
      scrambled.Standardize();
      key := scrambled.ToBoard();
    } else {
      var scrambled := new LegacyScrambled.LegacyScrambledBoard.FromBoard(child);
      scrambled.Standardize();
      key := scrambled.ToBoard();
    }
  }

  /** A child's analysis seen from the parent. */
  function Flipped(a: MoveAnalysis): (f: MoveAnalysis)
    ensures f.evaluation == Flip(a.evaluation)
    ensures f.moveOptions == a.moveOptions && f.depthUsed == a.depthUsed
  {
    a.(evaluation := Flip(a.evaluation))
  }

  /** What every cached record satisfies: its moves are Empty cells of its
      board, and it has none only when the board is lost or full. */
  ghost predicate Sound(k: seq<Piece>, n: nat, piece: Piece, a: MoveAnalysis)
  {
    && |k| == n * n
    && (forall c :: c in a.moveOptions ==> c in EmptyCells(k, n))
    && (a.moveOptions == [] ==> Grids.IsFull(k) || Grids.HasWin(k, n, Inverse(piece)))
  }

  /** A cache entry deep enough to be returned as it is. */
  predicate Cached(known: map<seq<Piece>, MoveAnalysis>, k: seq<Piece>, depthToUse: nat)
  {
    k in known && known[k].depthUsed >= depthToUse
  }

  class Negamax {
    const size: nat
    /** The piece the cached analyses are computed for. */
    const piece: Piece
    const depth: nat
    /** Children are canonicalised (`AiSerial`) rather than only inverted (`AI`). */
    const standardizes: bool
    var knownBoards: map<seq<Piece>, MoveAnalysis>

    ghost predicate Valid()
      reads this
    {
      && piece != Empty
      && forall k :: k in knownBoards ==> Sound(k, size, piece, knownBoards[k])
    }

    /** `AiSerial::new`: a depth beyond the number of cells is clamped to it. */
    constructor Serial(size: nat, piece: Piece, depth: nat)
      requires piece != Empty
      ensures Valid() && this.size == size && this.piece == piece && standardizes
      ensures this.depth == if depth > size * size then size * size else depth
      ensures this.depth <= size * size && (depth <= size * size ==> this.depth == depth)
      ensures knownBoards == map[]
    {
      this.size := size;
      this.piece := piece;
      this.depth := if depth > size * size then size * size else depth;
      this.standardizes := true;
      this.knownBoards := map[];
    }

    /** `AI::new`: the depth is kept as given. `AI` has no size field; the
        size here is the one of the boards it is asked about. */
    constructor Legacy(size: nat, piece: Piece, depth: nat)
      requires piece != Empty
      ensures Valid() && this.size == size && this.piece == piece && this.depth == depth
      ensures !standardizes && knownBoards == map[]
    {
      this.size := size;
      this.piece := piece;
      this.depth := depth;
      this.standardizes := false;
      this.knownBoards := map[];
    }

    /** A board the search has to expand: no deep enough cache entry, not
        lost for `piece`, not full. */
    ghost predicate Open(known: map<seq<Piece>, MoveAnalysis>, g: seq<Piece>, depthToUse: nat)
    {
      && !Cached(known, g, depthToUse)
      && !Grids.HasWin(g, size, Inverse(piece))
      && !Grids.IsFull(g)
    }

    /** `analyze`: a cached record that is deep enough is returned as it is;
        otherwise a board the opponent has won is `Lose(0)` and a full board
        `Tie(0)`, both with no moves and recorded at the full depth; at depth
        0 every available space is an option of `Unknown(0)`; otherwise every
        available move is searched one level shallower, each child's value
        is flipped, and the record keeps the best value, exactly the moves
        attaining it, and one more than the shallowest child depth. The
        result is always cached under the board. `subs` are the children's
        analyses as returned. */
    method Analyze(b: Boards.Board, depthToUse: nat) returns (r: MoveAnalysis, ghost subs: seq<MoveAnalysis>)
      requires Valid() && b.Valid() && b.size == size
      modifies this
      decreases depthToUse, 3
      ensures Valid()
      ensures b.grid in knownBoards && knownBoards[b.grid] == r
      ensures old(knownBoards).Keys <= knownBoards.Keys
      ensures r.depthUsed >= Min(depthToUse, depth)
      ensures Cached(old(knownBoards), b.grid, depthToUse) ==> r == old(knownBoards)[b.grid]
      ensures !Cached(old(knownBoards), b.grid, depthToUse) && Grids.HasWin(b.grid, size, Inverse(piece))
        ==> r == MoveAnalysis(Lose(0), [], depth)
      ensures !Cached(old(knownBoards), b.grid, depthToUse) && !Grids.HasWin(b.grid, size, Inverse(piece))
        && Grids.IsFull(b.grid)
        ==> r == MoveAnalysis(Tie(0), [], depth)
      ensures Open(old(knownBoards), b.grid, depthToUse) && depthToUse == 0
        ==> r == MoveAnalysis(Unknown(0), EmptyCells(b.grid, size), 0)
      ensures Open(old(knownBoards), b.grid, depthToUse) && depthToUse > 0
        ==> Expanded(b.grid, depthToUse, r, subs)
    {
      subs := [];
      if b.grid in knownBoards && knownBoards[b.grid].depthUsed >= depthToUse {
        return knownBoards[b.grid], subs;
      }
      if b.HasWin(Pieces.Inverse(piece)) {
        r := MoveAnalysis(Lose(0), [], depth);
        Store(b.grid, r);
        return;
      }
      if b.IsFull() {
        r := MoveAnalysis(Tie(0), [], depth);
        Store(b.grid, r);
        return;
      }
      var moves := AvailableSpaces(b);
      EmptyCellsOfUnfull(b.grid, size);
      if depthToUse == 0 {
        r := MoveAnalysis(Unknown(0), moves, 0);
        Store(b.grid, r);
        return;
      }
      r, subs := Expand(b, moves, depthToUse);
    }

    /** The expanding branch of `analyze`: search every move, summarize the
        flipped children and cache the record. */
    method Expand(b: Boards.Board, moves: seq<Coord>, depthToUse: nat) returns (r: MoveAnalysis, ghost subs: seq<MoveAnalysis>)
      requires Valid() && b.Valid() && b.size == size
      requires moves == EmptyCells(b.grid, size) && |moves| > 0 && depthToUse > 0
      modifies this
      decreases depthToUse, 2
      ensures Valid()
      ensures b.grid in knownBoards && knownBoards[b.grid] == r
      ensures old(knownBoards).Keys <= knownBoards.Keys
      ensures r.depthUsed >= Min(depthToUse, depth)
      ensures Expanded(b.grid, depthToUse, r, subs)
    {
      var newAnalyses;
      newAnalyses, subs := SearchChildren(b, moves, depthToUse);
      SummaryDepth(moves, subs, depthToUse, depth);
      r := Summarize(moves, newAnalyses);
      Store(b.grid, r);
    }

    /** `known_boards.insert`: a sound record is stored under its board. */
    method Store(g: seq<Piece>, r: MoveAnalysis)
      requires Valid() && Sound(g, size, piece, r)
      modifies this
      ensures Valid() && knownBoards == old(knownBoards)[g := r]
    {
      knownBoards := knownBoards[g := r];
    }

    /** What an expanded board's record is: the summary of its flipped
        children, one per available move, each searched at least one level
        shallower than asked (or to the engine's depth) and cached. */
    ghost predicate Expanded(g: seq<Piece>, depthToUse: nat, r: MoveAnalysis, subs: seq<MoveAnalysis>)
      reads this
      requires |g| == size * size && depthToUse > 0
    {
      && |subs| == |EmptyCells(g, size)| > 0
      && r == Summarize(EmptyCells(g, size), Map(subs, Flipped))
      && (forall i :: 0 <= i < |subs| ==> subs[i].depthUsed >= Min(depthToUse - 1, depth))
      && (forall c :: c in EmptyCells(g, size) ==> ChildKey(g, size, piece, c, standardizes) in knownBoards)
    }

    /** The loop of `analyze` over the available moves. */
    method SearchChildren(b: Boards.Board, moves: seq<Coord>, depthToUse: nat)
      returns (newAnalyses: seq<MoveAnalysis>, ghost subs: seq<MoveAnalysis>)
      requires Valid() && b.Valid() && b.size == size
      requires moves == EmptyCells(b.grid, size) && depthToUse > 0
      modifies this
      decreases depthToUse, 1
      ensures Valid() && old(knownBoards).Keys <= knownBoards.Keys
      ensures |subs| == |moves| && newAnalyses == Map(subs, Flipped)
      ensures forall j :: 0 <= j < |subs| ==> subs[j].depthUsed >= Min(depthToUse - 1, depth)
      ensures forall c :: c in moves ==> ChildKey(b.grid, size, piece, c, standardizes) in knownBoards
    {
      newAnalyses, subs := [], [];
      var i := 0;
      while i < |moves|
        invariant 0 <= i <= |moves| && |subs| == i && newAnalyses == Map(subs, Flipped)
        invariant Valid() && old(knownBoards).Keys <= knownBoards.Keys
        invariant forall j :: 0 <= j < i ==> subs[j].depthUsed >= Min(depthToUse - 1, depth)
        invariant forall j :: 0 <= j < i ==> ChildKey(b.grid, size, piece, moves[j], standardizes) in knownBoards
      {
        var sub := SearchChild(b, moves, i, depthToUse);
        MapAppend(subs, [sub], Flipped);
        subs := subs + [sub];
        newAnalyses := newAnalyses + [Flipped(sub)];
        i := i + 1;
      }
      forall c | c in moves ensures ChildKey(b.grid, size, piece, c, standardizes) in knownBoards {
        var j := PositionOf(moves, c);
      }
    }

    /** One pass of that loop: build the child for the `i`th move and
        analyse it one level shallower. */
    method SearchChild(b: Boards.Board, moves: seq<Coord>, i: nat, depthToUse: nat) returns (sub: MoveAnalysis)
      requires Valid() && b.Valid() && b.size == size
      requires moves == EmptyCells(b.grid, size) && i < |moves| && depthToUse > 0
      modifies this
      decreases depthToUse, 0
      ensures Valid() && old(knownBoards).Keys <= knownBoards.Keys
      ensures sub.depthUsed >= Min(depthToUse - 1, depth)
      ensures ChildKey(b.grid, size, piece, moves[i], standardizes) in knownBoards
    {
      assert moves[i] in moves;
      var key := Child(b, piece, moves[i], standardizes);
      ghost var unused;
      sub, unused := Analyze(key, depthToUse - 1);
    }

    /** `choose_move`: view the game board from this engine's side,
        canonicalise it, analyse it to the engine's depth, pick one of the
        best moves (`pick` stands for the random choice) and map it back to
        the game board: through the coordinate the chosen space carries for
        `AiSerial`, unchanged for `AI`, whose canonical form is the board
        itself. The result is an Empty cell of the game board; None stands
        for the source's panic when the analysis offers no move. */
    method ChooseMove(player: Piece, game: Boards.Board, pick: nat)
      returns (m: Option<Coord>, ghost spaces: seq<Space>, chosen: Option<Coord>)
      requires Valid() && game.Valid() && game.size == size && size > 0
      modifies this
      ensures Valid()
      ensures standardizes ==> ChoseScrambled(knownBoards, size, game.grid, player != piece, pick, spaces, chosen, m)
      ensures !standardizes ==> Picked(knownBoards, Viewed(game.grid, player != piece), pick, m)
      ensures m.Some? ==>
        && m.value.row < size && m.value.col < size
        && Grids.Cell(game.grid, size, m.value.row, m.value.col) == Empty
    {
      if standardizes {
        m, spaces, chosen := ChooseScrambled(player, game, pick);
      } else {
        m := ChooseLegacy(player, game, pick);
        spaces, chosen := [], m;
      }
    }

    /** Analyse a canonical key and pick one of its best moves: the option
        `pick` selects from the key's cached record. */
    method PickBest(key: Boards.Board, pick: nat) returns (chosen: Option<Coord>)
      requires Valid() && key.Valid() && key.size == size
      modifies this
      ensures Valid()
      ensures Picked(knownBoards, key.grid, pick, chosen)
      ensures chosen.Some? ==> chosen.value in EmptyCells(key.grid, size)
    {
      var analysis;
      ghost var subs;
      analysis, subs := Analyze(key, depth);
      chosen := Choose(analysis.moveOptions, pick);
    }

    /** `AiSerial::choose_move`. */
    method ChooseScrambled(player: Piece, game: Boards.Board, pick: nat)
      returns (m: Option<Coord>, ghost spaces: seq<Space>, chosen: Option<Coord>)
      requires Valid() && game.Valid() && game.size == size && size > 0
      modifies this
      ensures Valid()
      ensures ChoseScrambled(knownBoards, size, game.grid, player != piece, pick, spaces, chosen, m)
      ensures m.Some? ==>
        && m.value.row < size && m.value.col < size
        && Grids.Cell(game.grid, size, m.value.row, m.value.col) == Empty
    {
      var inverted := player != piece;
      var scrambled := ScrambledFor(game, inverted);
      spaces := scrambled.grid;
      var key := scrambled.ToBoard();
      chosen := PickBest(key, pick);
      if chosen.None? {
        return None, spaces, chosen;
      }
      var c := OriginalMove(scrambled, game, chosen.value, inverted);
      m := Some(c);
    }

    /** `AI::choose_move`: the legacy `standardize` is a stub and every
        label is the position it sits at, so the move played is the option
        picked from the record of the (possibly inverted) game board. */
    method ChooseLegacy(player: Piece, game: Boards.Board, pick: nat) returns (m: Option<Coord>)
      requires Valid() && game.Valid() && game.size == size && size > 0
      modifies this
      ensures Valid()
      ensures Picked(knownBoards, Viewed(game.grid, player != piece), pick, m)
      ensures m.Some? ==>
        && m.value.row < size && m.value.col < size
        && Grids.Cell(game.grid, size, m.value.row, m.value.col) == Empty
    {
      var scrambled := new LegacyScrambled.LegacyScrambledBoard.FromBoard(game);
      if player != piece {
        scrambled.Invert();
      }
      ghost var inverted := player != piece;
      assert scrambled.Flat() == Viewed(game.grid, inverted);
      scrambled.Standardize();
      var key := scrambled.ToBoard();
      var chosen := PickBest(key, pick);
      if chosen.None? {
        return None;
      }
      EmptyCellsMembers(key.grid, size, chosen.value);
      MapBackLegacy(game.grid, size, chosen.value, inverted);
      m := Some(scrambled.grid[chosen.value.row][chosen.value.col].coord);
      assert m == chosen;
    }
  }

  /** The option `pick` selects from `options` (the random `choose` of the
      source); None for an empty list, where the source panics. */
  function Choose(options: seq<Coord>, pick: nat): (chosen: Option<Coord>)
    ensures chosen.None? <==> options == []
    ensures chosen.Some? ==> chosen.value in options
  {
    if options == [] then None else Some(options[pick % |options|])
  }

  /** `chosen` is the option `pick` selects from the record cached for `key`. */
  ghost predicate Picked(known: map<seq<Piece>, MoveAnalysis>, key: seq<Piece>, pick: nat, chosen: Option<Coord>)
  {
    key in known && chosen == Choose(known[key].moveOptions, pick)
  }

  /** The game board as the engine analyses it: inverted when the piece to
      play is not the engine's. */
  function Viewed(game: seq<Piece>, inverted: bool): (v: seq<Piece>)
    ensures |v| == |game|
    ensures forall i :: 0 <= i < |game| ==> v[i] == if inverted then Inverse(game[i]) else game[i]
  {
    if inverted then Grids.Inverted(game) else game
  }

  /** The move `choose_move` returns for a cell of the canonical board:
      the coordinate the space there carries (`to_coord`). */
  function CarriedCoord(spaces: seq<Space>, n: nat, chosen: Option<Coord>): Option<Coord>
    requires |spaces| == n * n
    requires chosen.Some? ==> chosen.value.row < n && chosen.value.col < n
  {
    if chosen.None? then None else Some(Grids.Cell(spaces, n, chosen.value.row, chosen.value.col).coord)
  }

  /** The board `choose_move` analyses: `spaces` track the viewed game
      board, and their pieces are its canonical form. */
  ghost predicate Canonicalised(spaces: seq<Space>, n: nat, game: seq<Piece>, inverted: bool)
    requires n > 0 && |game| == n * n
  {
    && Scrambled.Tracks(spaces, n, Viewed(game, inverted))
    && Scrambled.Bare(spaces) == Grids.Standardized(Viewed(game, inverted), n)
  }

  /** What a `choose_move` over the space-tracking board returns, `known`
      being the cache after the analysis: `spaces` track the viewed game
      board and hold its canonical form, `chosen` is the option picked from
      the record of that form, an Empty cell of it, and the move is the
      coordinate its space carries. */
  ghost predicate ChoseScrambled(known: map<seq<Piece>, MoveAnalysis>, n: nat, game: seq<Piece>, inverted: bool,
                                 pick: nat, spaces: seq<Space>, chosen: Option<Coord>, m: Option<Coord>)
    requires n > 0 && |game| == n * n
  {
    && Canonicalised(spaces, n, game, inverted)
    && Picked(known, Scrambled.Bare(spaces), pick, chosen)
    && (chosen.Some? ==> chosen.value in EmptyCells(Scrambled.Bare(spaces), n))
    && (chosen.Some? ==> chosen.value.row < n && chosen.value.col < n)
    && m == CarriedCoord(spaces, n, chosen)
  }

  /** The first steps of every `choose_move`: scramble the game board,
      invert it when the piece to play is not the solver's, and standardize
      it once. */
  method ScrambledFor(game: Boards.Board, invert: bool) returns (scrambled: Scrambled.ScrambledBoard)
    requires game.Valid() && game.size > 0
    ensures fresh(scrambled) && scrambled.Valid() && scrambled.size == game.size
    ensures scrambled.origin == Viewed(game.grid, invert)
    ensures scrambled.BareGrid() == Grids.Standardized(Viewed(game.grid, invert), game.size)
  {
    scrambled := new Scrambled.ScrambledBoard.FromBoard(game);
    if invert {
      scrambled.Invert();
    }
    scrambled.Standardize();
  }

  /** The last step of every `choose_move`: an Empty cell of the scrambled
      board's bare grid is mapped back, through the coordinate its space
      carries, to an Empty cell of the game board. */
  method OriginalMove(scrambled: Scrambled.ScrambledBoard, game: Boards.Board, c: Coord, ghost inverted: bool)
    returns (m: Coord)
    requires scrambled.Valid() && game.Valid() && scrambled.size == game.size
    requires scrambled.origin == Viewed(game.grid, inverted)
    requires c in EmptyCells(scrambled.BareGrid(), scrambled.size)
    ensures c.row < game.size && c.col < game.size
    ensures m == Grids.Cell(scrambled.grid, game.size, c.row, c.col).coord
    ensures m.row < game.size && m.col < game.size
    ensures Grids.Cell(game.grid, game.size, m.row, m.col) == Empty
  {
    EmptyCellsMembers(scrambled.BareGrid(), scrambled.size, c);
    var space := scrambled.SpaceAt(c);
    MapBack(scrambled.grid, scrambled.size, scrambled.origin, game.grid, c, inverted);
    m := space.value.coord;
  }

  /** A cell that is Empty on the canonical board maps back, through the
      coordinate its space carries, to an Empty cell of the real board. */
  lemma MapBack(g: seq<Space>, n: nat, origin: seq<Piece>, game: seq<Piece>, c: Coord, inverted: bool)
    requires Scrambled.Tracks(g, n, origin) && c.row < n && c.col < n
    requires origin == if inverted then Grids.Inverted(game) else game
    requires Grids.Cell(Scrambled.Bare(g), n, c.row, c.col) == Empty
    ensures
      var s := Grids.Cell(g, n, c.row, c.col);
      s.coord.row < n && s.coord.col < n && Grids.Cell(game, n, s.coord.row, s.coord.col) == Empty
  {
    Grids.IdxBounds(n, c.row, c.col);
    var s := g[Grids.Idx(n, c.row, c.col)];
    assert Scrambled.Bare(g)[Grids.Idx(n, c.row, c.col)] == s.piece == Empty;
    assert s in g;
    Grids.IdxBounds(n, s.coord.row, s.coord.col);
    var k := Grids.Idx(n, s.coord.row, s.coord.col);
    assert origin[k] == Empty;
    if inverted {
      assert origin[k] == Inverse(game[k]);
    }
  }

  lemma MapBackLegacy(game: seq<Piece>, n: nat, c: Coord, inverted: bool)
    requires |game| == n * n && c.row < n && c.col < n
    requires Grids.Cell(if inverted then Grids.Inverted(game) else game, n, c.row, c.col) == Empty
    ensures Grids.Cell(game, n, c.row, c.col) == Empty
  {
    Grids.IdxBounds(n, c.row, c.col);
    var k := Grids.Idx(n, c.row, c.col);
    if inverted {
      assert Grids.Inverted(game)[k] == Inverse(game[k]);
    }
  }
}
