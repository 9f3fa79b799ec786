/** `AiLazy` (`src/players/ai_lazy.rs`): an exhaustive memoised negamax
    with no depth bound. Every record it computes is final, so it is stored
    at `MAX_DEPTH` and any cached record is reused; the search of a board
    stops at the first child that is a win. */
module Lazy {
  import opened Pieces
  import opened Seqs
  import Grids
  import Boards
  import Scrambled
  import opened Outcomes
  import opened Search

  /** The depth recorded for every finished analysis. */
  const MAX_DEPTH: nat := 100

  /** The position after `p` is played at the Empty cell `c`, canonicalised
      with one round of `standardize` but not inverted. */
  function AfterMove(g: seq<Piece>, n: nat, p: Piece, c: Coord): (k: seq<Piece>)
    requires |g| == n * n && c in EmptyCells(g, n)
    ensures |k| == n * n
  {
    EmptyCellsMembers(g, n, c);
    Grids.PieceAtBounds(g, n, c);
    Grids.Standardized(Grids.Placed(g, n, p, c).value, n)
  }

  /** The canonical positions the moves `cs` lead to, in order. */
  ghost function AfterMoves(g: seq<Piece>, n: nat, p: Piece, cs: seq<Coord>): (r: seq<seq<Piece>>)
    requires |g| == n * n && forall c :: c in cs ==> c in EmptyCells(g, n)
    ensures |r| == |cs| && forall j :: 0 <= j < |cs| ==> r[j] == AfterMove(g, n, p, cs[j])
  {
    seq(|cs|, j requires 0 <= j < |cs| => AfterMove(g, n, p, cs[j]))
  }

  /** The cells of `cs`, in order, whose move leads to the same canonical
      position as the move at `reference`. */
  function EquivalentAmong(g: seq<Piece>, n: nat, p: Piece, reference: Coord, cs: seq<Coord>): (r: seq<Coord>)
    requires |g| == n * n && reference in EmptyCells(g, n)
    requires forall c :: c in cs ==> c in EmptyCells(g, n)
    ensures forall c :: c in r ==> c in cs
    decreases |cs|
  {
    if cs == [] then []
    else
      var last := cs[|cs| - 1];
      EquivalentAmong(g, n, p, reference, cs[..|cs| - 1])
        + if AfterMove(g, n, p, last) == AfterMove(g, n, p, reference) then [last] else []
  }

  lemma {:induction false} EquivalentAmongMembers(g: seq<Piece>, n: nat, p: Piece, reference: Coord, cs: seq<Coord>, c: Coord)
    requires |g| == n * n && reference in EmptyCells(g, n)
    requires forall d :: d in cs ==> d in EmptyCells(g, n)
    ensures c in EquivalentAmong(g, n, p, reference, cs) <==>
      c in cs && AfterMove(g, n, p, c) == AfterMove(g, n, p, reference)
    decreases |cs|
  {
    if cs != [] {
      var init, last := cs[..|cs| - 1], cs[|cs| - 1];
      assert cs == init + [last];
      var tail := if AfterMove(g, n, p, last) == AfterMove(g, n, p, reference) then [last] else [];
      assert EquivalentAmong(g, n, p, reference, cs) == EquivalentAmong(g, n, p, reference, init) + tail;
      EquivalentAmongMembers(g, n, p, reference, init, c);
      assert c in tail <==> c == last && AfterMove(g, n, p, c) == AfterMove(g, n, p, reference);
    }
  }

  /** Every move equivalent to `reference` under the board's symmetries
      as `standardize` sees them, in row-major order. */
  function Equivalents(g: seq<Piece>, n: nat, p: Piece, reference: Coord): (r: seq<Coord>)
    requires |g| == n * n && reference in EmptyCells(g, n)
    ensures forall c :: c in r ==> c in EmptyCells(g, n)
  {
    EquivalentAmong(g, n, p, reference, EmptyCells(g, n))
  }

  /** The equivalent moves are exactly the legal moves leading to the same
      canonical position as the reference move, the reference among them. */
  lemma EquivalentsExactly(g: seq<Piece>, n: nat, p: Piece, reference: Coord, c: Coord)
    requires |g| == n * n && reference in EmptyCells(g, n)
    ensures reference in Equivalents(g, n, p, reference)
    ensures c in Equivalents(g, n, p, reference) <==>
      c in EmptyCells(g, n) && AfterMove(g, n, p, c) == AfterMove(g, n, p, reference)
  {
    EquivalentAmongMembers(g, n, p, reference, EmptyCells(g, n), c);
    EquivalentAmongMembers(g, n, p, reference, EmptyCells(g, n), reference);
  }

  class AiLazy {
    const size: nat
    const piece: Piece
    /** Skip `equivalent_move` and play the analysed move itself. */
    const deterministic: bool
    /** The records, keyed by the canonicalised boards analysed. */
    var knownBoards: map<seq<Piece>, MoveAnalysis>

    /** Every record is sound for its board and final. */
    ghost predicate Valid()
      reads this
    {
      && piece != Empty
      && forall k :: k in knownBoards ==>
           Sound(k, size, piece, knownBoards[k]) && knownBoards[k].depthUsed == MAX_DEPTH
    }

    /** `AiLazy::new`. */
    constructor (size: nat, piece: Piece, deterministic: bool)
      requires piece != Empty
      ensures Valid() && this.size == size && this.piece == piece && this.deterministic == deterministic
      ensures knownBoards == map[]
    {
      this.size := size;
      this.piece := piece;
      this.deterministic := deterministic;
      this.knownBoards := map[];
    }

    /** A board the search has to expand: never analysed, not lost, not full. */
    ghost predicate Open(known: map<seq<Piece>, MoveAnalysis>, g: seq<Piece>)
    {
      && g !in known
      && !Grids.HasWin(g, size, Inverse(piece))
      && !Grids.IsFull(g)
    }

    /** What an expanded board's record is: it concludes the search of its
        children in row-major order of the available moves, and `children`
        are the flipped records the cache holds for the children searched. */
    ghost predicate Explored(g: seq<Piece>, r: MoveAnalysis, children: seq<MoveAnalysis>)
      reads this
      requires |g| == size * size
    {
      var moves := EmptyCells(g, size);
      && Concludes(moves, r, children)
      && ChildrenCached(g, size, piece, moves, children, knownBoards)
    }

    /** `analyze`: a cached record is returned as it is; otherwise a board the
        opponent has won is `Lose(0)`, a full board `Tie(0)`, and any other
        board is explored; the result is cached, final, and sound, and no
        record cached before changes. */
    method Analyze(b: Boards.Board) returns (r: MoveAnalysis, ghost children: seq<MoveAnalysis>)
      requires Valid() && b.Valid() && b.size == size
      modifies this
      decreases Grids.Count(b.grid, Empty), 3
      ensures Valid()
      ensures b.grid in knownBoards && knownBoards[b.grid] == r
      ensures Keeps(old(knownBoards), knownBoards)
      ensures r.depthUsed == MAX_DEPTH
      ensures b.grid in old(knownBoards) ==> r == old(knownBoards)[b.grid]
      ensures b.grid !in old(knownBoards) && Grids.HasWin(b.grid, size, Inverse(piece))
        ==> r == MoveAnalysis(Lose(0), [], MAX_DEPTH)
      ensures b.grid !in old(knownBoards) && !Grids.HasWin(b.grid, size, Inverse(piece))
        && Grids.IsFull(b.grid)
        ==> r == MoveAnalysis(Tie(0), [], MAX_DEPTH)
      ensures Open(old(knownBoards), b.grid) ==> Explored(b.grid, r, children)
    {
      children := [];
      if b.grid in knownBoards {
        return knownBoards[b.grid], children;
      }
      if b.HasWin(Pieces.Inverse(piece)) {
        r := MoveAnalysis(Lose(0), [], MAX_DEPTH);
        Store(b.grid, r);
        return;
      }
      if b.IsFull() {
        r := MoveAnalysis(Tie(0), [], MAX_DEPTH);
        Store(b.grid, r);
        return;
      }
      r, children := Expand(b);
    }

    /** The open case of `analyze`: search the children and record the result. */
    method Expand(b: Boards.Board) returns (r: MoveAnalysis, children: seq<MoveAnalysis>)
      requires Valid() && b.Valid() && b.size == size && Open(knownBoards, b.grid)
      modifies this
      decreases Grids.Count(b.grid, Empty), 2
      ensures Valid()
      ensures b.grid in knownBoards && knownBoards[b.grid] == r
      ensures Keeps(old(knownBoards), knownBoards)
      ensures r.depthUsed == MAX_DEPTH && Explored(b.grid, r, children)
    {
      var moves := AvailableSpaces(b);
      EmptyCellsOfUnfull(b.grid, size);
      children := SearchChildren(b, moves);
      r := Conclude(moves, children);
      ConcludesSound(b.grid, size, piece, r, children);
      NotAChild(b.grid, size, piece, moves, children, knownBoards, r);
      ghost var before := knownBoards;
      Store(b.grid, r);
      KeepsStore(old(knownBoards), before, b.grid, r);
    }

    /** `known_boards.insert` of a board not cached yet: a sound, final
        record is stored under it, and no other record changes. */
    method Store(g: seq<Piece>, r: MoveAnalysis)
      requires Valid() && Sound(g, size, piece, r) && r.depthUsed == MAX_DEPTH
      modifies this
      ensures Valid() && knownBoards == old(knownBoards)[g := r]
    {
      knownBoards := knownBoards[g := r];
    }

    /** `analyze` on a child board, seen from the parent: the child's record
        ends up cached, and no record cached before changes. */
    method AnalyzeChild(key: Boards.Board) returns (sub: MoveAnalysis)
      requires Valid() && key.Valid() && key.size == size
      modifies this
      decreases Grids.Count(key.grid, Empty), 4
      ensures Valid() && Keeps(old(knownBoards), knownBoards)
      ensures key.grid in knownBoards && knownBoards[key.grid] == sub
    {
      ghost var unused;
      sub, unused := Analyze(key);
    }

    /** The loop of `analyze`: search the children in order, flipping each
        value, and stop after the first Win. */
    method SearchChildren(b: Boards.Board, moves: seq<Coord>) returns (newAnalyses: seq<MoveAnalysis>)
      requires Valid() && b.Valid() && b.size == size
      requires moves == EmptyCells(b.grid, size) && moves != []
      modifies this
      decreases Grids.Count(b.grid, Empty), 1
      ensures Searched(moves, newAnalyses)
      ensures SearchedSoFar(old(knownBoards), b.grid, moves, newAnalyses)
    {
      newAnalyses := [];
      ghost var start := knownBoards;
      var i := 0;
      while i < |moves|
        invariant 0 <= i <= |moves| && |newAnalyses| == i
        invariant SearchedSoFar(start, b.grid, moves, newAnalyses)
        invariant forall j :: 0 <= j < i ==> !newAnalyses[j].evaluation.Win?
      {
        var sub := SearchChild(b, moves, newAnalyses, start);
        newAnalyses := newAnalyses + [sub];
        if newAnalyses[i].evaluation.Win? {
          return;
        }
        i := i + 1;
      }
    }

    /** One step of the loop of `analyze`: build the child for the next
        move, analyse it and flip its value; the child joins the cached
        ones. */
    method SearchChild(b: Boards.Board, moves: seq<Coord>, searched: seq<MoveAnalysis>,
                       ghost start: map<seq<Piece>, MoveAnalysis>) returns (sub: MoveAnalysis)
      requires b.Valid() && b.size == size
      requires moves == EmptyCells(b.grid, size) && |searched| < |moves|
      requires SearchedSoFar(start, b.grid, moves, searched)
      modifies this
      decreases Grids.Count(b.grid, Empty), 0
      ensures SearchedSoFar(start, b.grid, moves, searched + [sub])
    {
      var c := moves[|searched|];
      var key := Child(b, piece, c, true);
      ChildKeyCount(b.grid, size, piece, c, true);
      ghost var before := knownBoards;
      var analysis := AnalyzeChild(key);
      sub := Flipped(analysis);
      CachedOneMore(b.grid, size, piece, moves, searched, before, knownBoards, sub);
      KeepsTransitive(start, before, knownBoards);
    }

    /** Where the search of a board's children stands once the children in
        `searched` are done: no record cached at `start` has changed, and
        `searched` are the flipped records cached for the first children
        of `g`. */
    ghost predicate SearchedSoFar(start: map<seq<Piece>, MoveAnalysis>, g: seq<Piece>, moves: seq<Coord>,
                                  searched: seq<MoveAnalysis>)
      reads this
      requires |g| == size * size && moves == EmptyCells(g, size)
    {
      Valid() && Keeps(start, knownBoards) && ChildrenCached(g, size, piece, moves, searched, knownBoards)
    }

    /** `choose_move`: standardize the game board (inverted first when
        asked to play the other piece), analyse it, take one of the best
        moves (`pick` stands for the random choice) and map it back to the
        game board (`initial`); when deterministic that is the move,
        otherwise a move equivalent to it for the engine's piece (`pick2`).
        None stands for the source's panic on a board with no move to
        offer. */
    method ChooseMove(player: Piece, game: Boards.Board, pick: nat, pick2: nat)
      returns (m: Option<Coord>, ghost initial: Option<Coord>, ghost spaces: seq<Space>, chosen: Option<Coord>)
      requires Valid() && game.Valid() && game.size == size && size > 0
      modifies this
      ensures Valid() && Keeps(old(knownBoards), knownBoards)
      ensures ChoseScrambled(knownBoards, size, game.grid, player != piece, pick, spaces, chosen, initial)
      ensures initial.Some? ==> initial.value in EmptyCells(game.grid, size)
      ensures deterministic ==> m == initial
      ensures !deterministic && initial.None? ==> m.None?
      ensures !deterministic && initial.Some? ==>
        m.Some? && m.value in Equivalents(game.grid, size, piece, initial.value)
      ensures m.Some? ==> m.value in EmptyCells(game.grid, size)
    {
      var first;
      first, spaces, chosen := ChooseInitial(player, game, pick);
      initial := first;
      if deterministic || first.None? {
        return first, initial, spaces, chosen;
      }
      m := EquivalentMove(first.value, game, pick2);
    }

    /** The analysed move of `choose_move`, mapped back to the game board
        through the coordinate the chosen space carries. */
    method ChooseInitial(player: Piece, game: Boards.Board, pick: nat)
      returns (m: Option<Coord>, ghost spaces: seq<Space>, chosen: Option<Coord>)
      requires Valid() && game.Valid() && game.size == size && size > 0
      modifies this
      ensures Valid() && Keeps(old(knownBoards), knownBoards)
      ensures ChoseScrambled(knownBoards, size, game.grid, player != piece, pick, spaces, chosen, m)
      ensures m.Some? ==> m.value in EmptyCells(game.grid, size)
    {
      var inverted := player != piece;
      var scrambled := ScrambledFor(game, inverted);
      spaces := scrambled.grid;
      var key := scrambled.ToBoard();
      chosen := PickBest(key, pick);
      if chosen.None? {
        return None, spaces, chosen;
      }
      var c := OriginalMove(scrambled, game, chosen.value, inverted);
      m := Some(c);
      EmptyCellsMembers(game.grid, size, m.value);
    }

    /** Analyse a canonical key and pick one of its best moves: the option
        `pick` selects from the key's cached record. */
    method PickBest(key: Boards.Board, pick: nat) returns (chosen: Option<Coord>)
      requires Valid() && key.Valid() && key.size == size
      modifies this
      ensures Valid() && Keeps(old(knownBoards), knownBoards)
      ensures Picked(knownBoards, key.grid, pick, chosen)
      ensures chosen.Some? ==> chosen.value in EmptyCells(key.grid, size)
    {
      var analysis;
      ghost var children;
      analysis, children := Analyze(key);
      chosen := Choose(analysis.moveOptions, pick);
    }

    /** `equivalent_move`: every cell where `piece` can be placed whose
        canonical result equals the reference move's; one of them is
        returned (`pick` stands for the random choice). None stands for the
        source's panic when the reference cell is not a legal move. */
    method EquivalentMove(reference: Coord, b: Boards.Board, pick: nat) returns (m: Option<Coord>)
      requires b.Valid() && b.size == size && size > 0
      ensures reference in EmptyCells(b.grid, size) <==> m.Some?
      ensures m.Some? ==> m.value in Equivalents(b.grid, size, piece, reference)
    {
      var legal, boards := ScanMoves(b, piece);
      var at := IndexOf(legal, reference);
      if at.None? {
        return None;
      }
      var equivalent := Matching(b.grid, size, piece, reference, legal, boards, boards[at.value]);
      EquivalentsExactly(b.grid, size, piece, reference, reference);
      m := Some(equivalent[pick % |equivalent|]);
    }
  }

  /** No record cached before changes; new ones may be added. */
  ghost predicate Keeps(before: map<seq<Piece>, MoveAnalysis>, after: map<seq<Piece>, MoveAnalysis>)
  {
    forall k :: k in before ==> k in after && after[k] == before[k]
  }

  lemma KeepsTransitive(a: map<seq<Piece>, MoveAnalysis>, b: map<seq<Piece>, MoveAnalysis>,
                         c: map<seq<Piece>, MoveAnalysis>)
    requires Keeps(a, b) && Keeps(b, c)
    ensures Keeps(a, c)
  {
  }

  /** Storing a record under a board not cached at the start keeps every
      record cached at the start. */
  lemma KeepsStore(start: map<seq<Piece>, MoveAnalysis>, known: map<seq<Piece>, MoveAnalysis>,
                   g: seq<Piece>, r: MoveAnalysis)
    requires Keeps(start, known) && g !in start
    ensures Keeps(start, known[g := r])
  {
  }

  /** The children of `g` for the first `|children|` moves, in order, are
      cached in `known` under their canonical keys, and `children` are
      their records flipped to `g`'s side. */
  ghost predicate ChildrenCached(g: seq<Piece>, n: nat, p: Piece, moves: seq<Coord>, children: seq<MoveAnalysis>,
                                 known: map<seq<Piece>, MoveAnalysis>)
    requires |g| == n * n && moves == EmptyCells(g, n)
    decreases |children|
  {
    && |children| <= |moves|
    && (children != [] ==>
          var i := |children| - 1;
          && ChildrenCached(g, n, p, moves, children[..i], known)
          && ChildKey(g, n, p, moves[i], true) in known
          && children[i] == Flipped(known[ChildKey(g, n, p, moves[i], true)]))
  }

  /** Child by child: the `i`th value is the record cached under the key of
      the position after the `i`th move, flipped. */
  lemma {:induction false} ChildrenCachedAt(g: seq<Piece>, n: nat, p: Piece, moves: seq<Coord>,
                                            children: seq<MoveAnalysis>, known: map<seq<Piece>, MoveAnalysis>, i: nat)
    requires |g| == n * n && moves == EmptyCells(g, n)
    requires ChildrenCached(g, n, p, moves, children, known) && i < |children|
    ensures ChildKey(g, n, p, moves[i], true) in known
    ensures children[i] == Flipped(known[ChildKey(g, n, p, moves[i], true)])
    decreases |children|
  {
    var last := |children| - 1;
    assert ChildrenCached(g, n, p, moves, children[..last], known);
    if i < last {
      ChildrenCachedAt(g, n, p, moves, children[..last], known, i);
      assert children[..last][i] == children[i];
      assert ChildKey(g, n, p, moves[i], true) in known;
    } else {
      assert i == last && ChildKey(g, n, p, moves[i], true) in known;
    }
  }

  /** Records cached before do not change, so the children cached stay cached
      with the same records. */
  lemma {:induction false} StillCached(g: seq<Piece>, n: nat, p: Piece, moves: seq<Coord>, children: seq<MoveAnalysis>,
                                       before: map<seq<Piece>, MoveAnalysis>, after: map<seq<Piece>, MoveAnalysis>)
    requires |g| == n * n && moves == EmptyCells(g, n)
    requires ChildrenCached(g, n, p, moves, children, before) && Keeps(before, after)
    ensures ChildrenCached(g, n, p, moves, children, after)
    decreases |children|
  {
    if children != [] {
      StillCached(g, n, p, moves, children[..|children| - 1], before, after);
    }
  }

  /** The next child, once cached, extends the cached prefix. */
  lemma CachedOneMore(g: seq<Piece>, n: nat, p: Piece, moves: seq<Coord>, children: seq<MoveAnalysis>,
                      before: map<seq<Piece>, MoveAnalysis>, after: map<seq<Piece>, MoveAnalysis>, sub: MoveAnalysis)
    requires |g| == n * n && moves == EmptyCells(g, n) && |children| < |moves|
    requires ChildrenCached(g, n, p, moves, children, before) && Keeps(before, after)
    requires ChildKey(g, n, p, moves[|children|], true) in after
    requires sub == Flipped(after[ChildKey(g, n, p, moves[|children|], true)])
    ensures ChildrenCached(g, n, p, moves, children + [sub], after)
  {
    StillCached(g, n, p, moves, children, before, after);
    assert (children + [sub])[..|children|] == children;
  }

  /** Recording a board's own result keeps its children's records: every
      child key has one Empty cell fewer than the board. */
  lemma {:induction false} NotAChild(g: seq<Piece>, n: nat, p: Piece, moves: seq<Coord>, children: seq<MoveAnalysis>,
                                     known: map<seq<Piece>, MoveAnalysis>, r: MoveAnalysis)
    requires |g| == n * n && moves == EmptyCells(g, n) && p != Empty
    requires ChildrenCached(g, n, p, moves, children, known)
    ensures ChildrenCached(g, n, p, moves, children, known[g := r])
    decreases |children|
  {
    if children != [] {
      var i := |children| - 1;
      NotAChild(g, n, p, moves, children[..i], known, r);
      ChildKeyCount(g, n, p, moves[i], true);
    }
  }

  /** The flipped analyses of a search over `moves` in order: it stops
      at the first Win, and otherwise covers every move. */
  ghost predicate Searched(moves: seq<Coord>, children: seq<MoveAnalysis>)
  {
    && 0 < |children| <= |moves|
    && (forall i :: 0 <= i < |children| - 1 ==> !children[i].evaluation.Win?)
    && (!children[|children| - 1].evaluation.Win? ==> |children| == |moves|)
  }

  /** How a searched board's record follows from its children's flipped
      analyses: the first child whose value is a Win is the only option;
      otherwise the record keeps the best value and exactly the moves
      attaining it. */
  ghost predicate Concludes(moves: seq<Coord>, r: MoveAnalysis, children: seq<MoveAnalysis>)
  {
    && Searched(moves, children)
    && var last := children[|children| - 1];
       if last.evaluation.Win? then
         r == MoveAnalysis(last.evaluation, [moves[|children| - 1]], MAX_DEPTH)
       else
         r == Summarize(moves, children).(depthUsed := MAX_DEPTH)
  }

  /** A concluded record offers only available moves, and at least one. */
  lemma ConcludesSound(g: seq<Piece>, n: nat, p: Piece, r: MoveAnalysis, children: seq<MoveAnalysis>)
    requires |g| == n * n && Concludes(EmptyCells(g, n), r, children)
    ensures Sound(g, n, p, r) && r.moveOptions != [] && r.depthUsed == MAX_DEPTH
  {
    var moves := EmptyCells(g, n);
    if !children[|children| - 1].evaluation.Win? {
      var s := Summarize(moves, children);
      assert r.moveOptions == s.moveOptions;
      forall c | c in r.moveOptions
        ensures c in moves
      {
        var i :| 0 <= i < |moves| && moves[i] == c && children[i].evaluation == s.evaluation;
      }
    }
  }

  /** The end of `analyze`: the record built from the searched children. */
  method Conclude(moves: seq<Coord>, newAnalyses: seq<MoveAnalysis>) returns (r: MoveAnalysis)
    requires Searched(moves, newAnalyses)
    ensures Concludes(moves, r, newAnalyses)
  {
    var last := newAnalyses[|newAnalyses| - 1];
    if last.evaluation.Win? {
      r := MoveAnalysis(last.evaluation, [moves[|newAnalyses| - 1]], MAX_DEPTH);
    } else {
      var best := MaxValue(Evaluations(newAnalyses));
      r := MoveAnalysis(best, Attaining(moves, Evaluations(newAnalyses), best), MAX_DEPTH);
      assert r == Summarize(moves, newAnalyses).(depthUsed := MAX_DEPTH);
    }
  }

  /** Every legal move of `p` on `b`, in row-major order, with the
      canonical board each one leads to. */
  method ScanMoves(b: Boards.Board, p: Piece) returns (legal: seq<Coord>, boards: seq<seq<Piece>>)
    requires b.Valid()
    ensures legal == EmptyCells(b.grid, b.size)
    ensures boards == AfterMoves(b.grid, b.size, p, legal)
  {
    var n := b.size;
    legal, boards := [], [];
    var row := 0;
    while row < n
      invariant row <= n && Scanned(b.grid, n, p, RowStart(row, n), legal, boards)
    {
      legal, boards := ScanRow(b, p, row, legal, boards);
      row := row + 1;
    }
    RowStartProduct(n, n);
  }

  /** The scan of one row: each cell of row `row`, left to right. */
  method ScanRow(b: Boards.Board, p: Piece, row: nat, legal0: seq<Coord>, boards0: seq<seq<Piece>>)
    returns (legal: seq<Coord>, boards: seq<seq<Piece>>)
    requires b.Valid() && row < b.size && Scanned(b.grid, b.size, p, RowStart(row, b.size), legal0, boards0)
    ensures Scanned(b.grid, b.size, p, RowStart(row + 1, b.size), legal, boards)
  {
    legal, boards := legal0, boards0;
    ghost var flat: nat := RowStart(row, b.size);  // the flat index of (row, col)
    var col := 0;
    while col < b.size
      invariant col <= b.size && flat == RowStart(row, b.size) + col
      invariant Scanned(b.grid, b.size, p, flat, legal, boards)
    {
      legal, boards := ScanCell(b, p, row, col, flat, legal, boards);
      col, flat := col + 1, flat + 1;
    }
  }

  /** The scan of the cell (row, col): a legal move is listed with the
      canonical board it leads to. */
  method ScanCell(b: Boards.Board, p: Piece, row: nat, col: nat, ghost flat: nat,
                  legal0: seq<Coord>, boards0: seq<seq<Piece>>)
    returns (legal: seq<Coord>, boards: seq<seq<Piece>>)
    requires b.Valid() && row < b.size && col < b.size && flat == RowStart(row, b.size) + col
    requires Scanned(b.grid, b.size, p, flat, legal0, boards0)
    ensures Scanned(b.grid, b.size, p, flat + 1, legal, boards)
  {
    var after := TryMove(b, p, Coord(row, col));
    RowStartProduct(row, b.size);
    ScanStep(b.grid, b.size, p, row, col, flat, legal0, boards0, after);
    legal, boards := legal0, boards0;
    if after.Some? {
      legal := legal + [Coord(row, col)];
      boards := boards + [after.value];
    }
  }

  /** One more cell of `cs` adds that cell exactly when its move is
      equivalent to the reference move. */
  lemma EquivalentAmongSnoc(g: seq<Piece>, n: nat, p: Piece, reference: Coord, cs: seq<Coord>, k: nat)
    requires |g| == n * n && reference in EmptyCells(g, n)
    requires forall c :: c in cs ==> c in EmptyCells(g, n)
    requires k < |cs|
    ensures EquivalentAmong(g, n, p, reference, cs[..k + 1]) ==
      EquivalentAmong(g, n, p, reference, cs[..k])
        + if AfterMove(g, n, p, cs[k]) == AfterMove(g, n, p, reference) then [cs[k]] else []
  {
    assert cs[..k + 1][..k] == cs[..k];
  }

  /** The moves among `legal` whose canonical board is `target`. */
  method Matching(ghost g: seq<Piece>, ghost n: nat, ghost p: Piece, ghost reference: Coord,
                  legal: seq<Coord>, boards: seq<seq<Piece>>, target: seq<Piece>)
    returns (equivalent: seq<Coord>)
    requires |g| == n * n && forall c :: c in legal ==> c in EmptyCells(g, n)
    requires boards == AfterMoves(g, n, p, legal)
    requires reference in EmptyCells(g, n) && target == AfterMove(g, n, p, reference)
    ensures equivalent == EquivalentAmong(g, n, p, reference, legal)
  {
    equivalent := [];
    var k := 0;
    while k < |legal|
      invariant k <= |legal|
      invariant equivalent == EquivalentAmong(g, n, p, reference, legal[..k])
    {
      EquivalentAmongSnoc(g, n, p, reference, legal, k);
      if boards[k] == target {
        equivalent := equivalent + [legal[k]];
      }
      k := k + 1;
    }
    assert legal[..k] == legal;
  }

  /** The cells before flat position `k` have been tried: `legal` lists the
      Empty ones in row-major order and `boards` the canonical positions
      their moves lead to. */
  ghost predicate Scanned(g: seq<Piece>, n: nat, p: Piece, k: nat, legal: seq<Coord>, boards: seq<seq<Piece>>)
    requires |g| == n * n
  {
    && k <= n * n
    && legal == EmptyCellsBefore(g, n, k)
    && (forall c :: c in legal ==> c in EmptyCells(g, n))
    && boards == AfterMoves(g, n, p, legal)
  }

  lemma ScanStep(g: seq<Piece>, n: nat, p: Piece, row: nat, col: nat, flat: nat, legal: seq<Coord>,
                 boards: seq<seq<Piece>>, after: Option<seq<Piece>>)
    requires |g| == n * n && row < n && col < n && flat == row * n + col && Scanned(g, n, p, flat, legal, boards)
    requires after.Some? <==> Coord(row, col) in EmptyCells(g, n)
    requires after.Some? ==> after.value == AfterMove(g, n, p, Coord(row, col))
    ensures Scanned(g, n, p, flat + 1,
      if after.Some? then legal + [Coord(row, col)] else legal,
      if after.Some? then boards + [after.value] else boards)
  {
    EmptyCellsStep(g, n, row, col);
    var c := Coord(row, col);
    if after.Some? {
      AfterMovesSnoc(g, n, p, legal, c);
      assert EmptyCellsBefore(g, n, flat + 1) == legal + [c];
    } else {
      assert EmptyCellsBefore(g, n, flat + 1) == legal;
    }
  }

  /** The flat index of the first cell of row `row`, counted a row at a time. */
  function RowStart(row: nat, n: nat): nat
  {
    if row == 0 then 0 else RowStart(row - 1, n) + n
  }

  lemma {:induction false} RowStartProduct(row: nat, n: nat)
    ensures RowStart(row, n) == row * n
  {
    if row > 0 {
      RowStartProduct(row - 1, n);
      assert (row - 1) * n + n == row * n;
    }
  }

  /** The row-major scan reaches one more cell. */
  lemma EmptyCellsStep(g: seq<Piece>, n: nat, row: nat, col: nat)
    requires |g| == n * n && row < n && col < n
    ensures row * n + col < n * n
    ensures EmptyCellsBefore(g, n, row * n + col + 1) ==
      EmptyCellsBefore(g, n, row * n + col) + if Coord(row, col) in EmptyCells(g, n) then [Coord(row, col)] else []
  {
    Grids.IdxBounds(n, row, col);
    Grids.IdxDivMod(n, row, col);
    EmptyCellsMembers(g, n, Coord(row, col));
    var k := row * n + col;
    assert Grids.Cell(g, n, row, col) == g[k];
    assert Coord(k / n, k % n) == Coord(row, col);
  }

  lemma AfterMovesSnoc(g: seq<Piece>, n: nat, p: Piece, cs: seq<Coord>, c: Coord)
    requires |g| == n * n && c in EmptyCells(g, n) && forall d :: d in cs ==> d in EmptyCells(g, n)
    ensures AfterMoves(g, n, p, cs + [c]) == AfterMoves(g, n, p, cs) + [AfterMove(g, n, p, c)]
  {
    var l, r := AfterMoves(g, n, p, cs + [c]), AfterMoves(g, n, p, cs) + [AfterMove(g, n, p, c)];
    forall j | 0 <= j < |cs| + 1 ensures l[j] == r[j] {
      assert (cs + [c])[j] == if j < |cs| then cs[j] else c;
    }
  }

  /** One step of `equivalent_move`: on a copy of the board, place `p` at
      `c`; when that succeeds, the canonical board it leads to. */
  method TryMove(b: Boards.Board, p: Piece, c: Coord) returns (after: Option<seq<Piece>>)
    requires b.Valid() && c.row < b.size && c.col < b.size
    ensures after.Some? <==> Grids.PieceAt(b.grid, b.size, c) == Grids.Ok(Empty)
    ensures after.Some? <==> c in EmptyCells(b.grid, b.size)
    ensures after.Some? ==> after.value == AfterMove(b.grid, b.size, p, c)
  {
    var thisBoard := new Boards.Board.FromGrid(b.size, b.grid);
    var placed := thisBoard.Place(p, c);
    Grids.PieceAtBounds(b.grid, b.size, c);
    EmptyCellsMembers(b.grid, b.size, c);
    if placed.Ok? {
      var scrambled := new Scrambled.ScrambledBoard.FromBoard(thisBoard);
      scrambled.Standardize();
      var standardized := scrambled.ToBoard();
      return Some(standardized.grid);
    }
    return None;
  }

  /** The first position of `x` in `s`, if any. */
  method IndexOf(s: seq<Coord>, x: Coord) returns (r: Option<nat>)
    ensures r.None? <==> x !in s
    ensures r.Some? ==> r.value < |s| && s[r.value] == x
  {
    var i := 0;
    while i < |s|
      invariant i <= |s| && x !in s[..i]
    {
      if s[i] == x {
        return Some(i);
      }
      i := i + 1;
    }
    assert s[..i] == s;
    return None;
  }
}
