/** The older `src/ai/scrambled_board.rs`: a board kept as a vector of rows
    of spaces, each space carrying a `(row, col)` label. Here `transpose`
    swaps the labels instead of moving the spaces, and `standardize` is
    still a stub that does nothing. */
module LegacyScrambled {
  import opened Pieces
  import Seqs
  import Grids
  import Boards

  /** The label a space at grid position `(r, c)` carries: its own position,
      or the mirrored one once the labels have been transposed an odd
      number of times. */
  function Label(flipped: bool, r: nat, c: nat): Coord
  {
    if flipped then Coord(c, r) else Coord(r, c)
  }

  /** What `transpose` does to one space: swap its row and column labels. */
  function Relabelled(s: Space): (t: Space)
    ensures t.piece == s.piece && t.coord.row == s.coord.col && t.coord.col == s.coord.row
  {
    Space(s.piece, Coord(s.coord.col, s.coord.row))
  }

  lemma RelabelledInvolution(s: Space)
    ensures Relabelled(Relabelled(s)) == s
  {
  }

  /** What `invert` does to one space: invert its piece, keep its label. */
  function Inverted(s: Space): (t: Space)
    ensures t.coord == s.coord && t.piece == Inverse(s.piece)
  {
    Space(Inverse(s.piece), s.coord)
  }

  lemma InvertedInvolution(s: Space)
    ensures Inverted(Inverted(s)) == s
  {
    InverseInvolution(s.piece);
  }

  /** Rows that are visited before `(row, col)` in row-major order. */
  predicate Visited(r: nat, c: nat, row: nat, col: nat)
  {
    r < row || (r == row && c < col)
  }

  /** `size` rows of `size` spaces. */
  ghost predicate Shaped(g: seq<seq<Space>>, n: nat)
  {
    |g| == n && forall r :: 0 <= r < n ==> |g[r]| == n
  }

  /** The pieces of a grid of rows in the order `spaces()` visits them. */
  function FlatOf(g: seq<seq<Space>>, n: nat): (f: seq<Piece>)
    requires Shaped(g, n)
    ensures |f| == n * n
  {
    seq(n * n, k requires 0 <= k < n * n =>
      Grids.IdxDecompose(n, k);
      g[k / n][k % n].piece)
  }

  lemma FlatOfAt(g: seq<seq<Space>>, n: nat, r: nat, c: nat)
    requires Shaped(g, n) && r < n && c < n
    ensures Grids.Cell(FlatOf(g, n), n, r, c) == g[r][c].piece
  {
    Grids.IdxBounds(n, r, c);
    Grids.IdxDivMod(n, r, c);
  }

  /** Flat index `k` of two grids of the same side reads the same cell of each. */
  lemma FlatOfCell(g: seq<seq<Space>>, h: seq<seq<Space>>, n: nat, k: nat) returns (r: nat, c: nat)
    requires Shaped(g, n) && Shaped(h, n) && k < n * n
    ensures r < n && c < n
    ensures FlatOf(g, n)[k] == g[r][c].piece && FlatOf(h, n)[k] == h[r][c].piece
  {
    Grids.IdxDecompose(n, k);
    r, c := k / n, k % n;
  }

  /** Two grids whose pieces agree position by position up to `f`. */
  lemma FlatOfMap(g: seq<seq<Space>>, h: seq<seq<Space>>, n: nat, f: Piece -> Piece)
    requires Shaped(g, n) && Shaped(h, n)
    requires forall r: nat, c: nat :: r < n && c < n ==> g[r][c].piece == f(h[r][c].piece)
    ensures FlatOf(g, n) == Seqs.Map(FlatOf(h, n), f)
  {
    forall k | 0 <= k < n * n ensures FlatOf(g, n)[k] == f(FlatOf(h, n)[k]) {
      var r, c := FlatOfCell(g, h, n, k);
    }
  }

  lemma FlatOfSame(g: seq<seq<Space>>, h: seq<seq<Space>>, n: nat)
    requires Shaped(g, n) && Shaped(h, n)
    requires forall r: nat, c: nat :: r < n && c < n ==> g[r][c].piece == h[r][c].piece
    ensures FlatOf(g, n) == FlatOf(h, n)
  {
    forall k | 0 <= k < n * n ensures FlatOf(g, n)[k] == FlatOf(h, n)[k] {
      var r, c := FlatOfCell(g, h, n, k);
    }
  }

  /** The rows `from_board` builds read back as the board. */
  lemma FromBoardFlat(g: seq<seq<Space>>, b: seq<Piece>, n: nat)
    requires Shaped(g, n) && |b| == n * n
    requires forall r: nat, c: nat :: r < n && c < n ==> g[r][c].piece == Grids.Cell(b, n, r, c)
    ensures FlatOf(g, n) == b
  {
    forall k | 0 <= k < n * n ensures FlatOf(g, n)[k] == b[k] {
      FromBoardAt(g, b, n, k);
    }
  }

  lemma FromBoardAt(g: seq<seq<Space>>, b: seq<Piece>, n: nat, k: nat)
    requires Shaped(g, n) && |b| == n * n && k < n * n
    requires forall r: nat, c: nat :: r < n && c < n ==> g[r][c].piece == Grids.Cell(b, n, r, c)
    ensures FlatOf(g, n)[k] == b[k]
  {
    Grids.IdxDecompose(n, k);
    var r, c := k / n, k % n;
    assert FlatOf(g, n)[k] == g[r][c].piece;
    assert g[r][c].piece == Grids.Cell(b, n, r, c);
  }

  /** Loop invariant of `to_board`: the spaces visited so far have put
      their piece at their label, every other cell is still Empty. */
  ghost predicate PlacedUpTo(b: seq<Piece>, g: seq<seq<Space>>, n: nat, flipped: bool, row: nat, col: nat)
    requires |b| == n * n && Shaped(g, n)
  {
    forall r: nat, c: nat :: r < n && c < n ==>
      Grids.Cell(b, n, Label(flipped, r, c).row, Label(flipped, r, c).col)
        == if Visited(r, c, row, col) then g[r][c].piece else Empty
  }

  /** Placing the space at `(row, col)` finds its label's cell Empty and
      writes only that cell. */
  lemma ToBoardStep(b: seq<Piece>, g: seq<seq<Space>>, n: nat, flipped: bool, row: nat, col: nat)
    requires |b| == n * n && Shaped(g, n) && row < n && col < n
    requires forall r: nat, c: nat :: r < n && c < n ==> g[r][c].coord == Label(flipped, r, c)
    requires PlacedUpTo(b, g, n, flipped, row, col)
    ensures Grids.PieceAt(b, n, g[row][col].coord) == Grids.Ok(Empty)
    ensures PlacedUpTo(Grids.Placed(b, n, g[row][col].piece, g[row][col].coord).value, g, n, flipped, row, col + 1)
  {
    var s := g[row][col];
    Grids.PieceAtBounds(b, n, s.coord);
    var b' := Grids.Placed(b, n, s.piece, s.coord).value;
    forall r: nat, c: nat | r < n && c < n
      ensures Grids.Cell(b', n, Label(flipped, r, c).row, Label(flipped, r, c).col)
        == if Visited(r, c, row, col + 1) then g[r][c].piece else Empty
    {
      var l := Label(flipped, r, c);
      Grids.IdxBounds(n, l.row, l.col);
      if (r, c) != (row, col) && Grids.Idx(n, l.row, l.col) == Grids.Idx(n, s.coord.row, s.coord.col) {
        Grids.IdxInjective(n, l.row, l.col, s.coord.row, s.coord.col);
      }
    }
  }

  /** Once every space is placed, the board is the grid read row by row,
      transposed when the labels are. */
  lemma ToBoardDone(b: seq<Piece>, g: seq<seq<Space>>, n: nat, flipped: bool)
    requires |b| == n * n && Shaped(g, n)
    requires PlacedUpTo(b, g, n, flipped, n, 0)
    ensures b == if flipped then Grids.Transposed(FlatOf(g, n), n) else FlatOf(g, n)
  {
    var f := FlatOf(g, n);
    var target := if flipped then Grids.Transposed(f, n) else f;
    forall k | 0 <= k < n * n ensures b[k] == target[k] {
      Grids.IdxDecompose(n, k);
      var a, c := k / n, k % n;
      assert Grids.Cell(b, n, a, c) == b[k];
      if flipped {
        assert Label(flipped, c, a) == Coord(a, c);
        assert Grids.Cell(b, n, a, c) == g[c][a].piece;
        Grids.TransposedAt(f, n, a, c);
        FlatOfAt(g, n, c, a);
      } else {
        assert Label(flipped, a, c) == Coord(a, c);
        assert Grids.Cell(b, n, a, c) == g[a][c].piece;
        FlatOfAt(g, n, a, c);
      }
    }
  }

  class LegacyScrambledBoard {
    const size: nat
    var grid: seq<seq<Space>>
    /** Whether the labels are transposed relative to the positions. */
    ghost var flipped: bool

    ghost predicate Valid()
      reads this
    {
      && Shaped(grid, size)
      && forall r: nat, c: nat :: r < size && c < size ==> grid[r][c].coord == Label(flipped, r, c)
    }

    /** The pieces in the order `spaces()` visits them: row by row. */
    function Flat(): (f: seq<Piece>)
      requires Valid()
      reads this
      ensures |f| == size * size
    {
      FlatOf(grid, size)
    }

    /** `from_board`: row by row, each space gets the board's piece at that
        position and that position as its label. */
    constructor FromBoard(b: Boards.Board)
      requires b.Valid()
      ensures Valid() && size == b.size && !flipped
      ensures forall r: nat, c: nat :: r < size && c < size ==>
        grid[r][c] == Space(Grids.Cell(b.grid, size, r, c), Coord(r, c))
      ensures Flat() == b.grid
    {
      var n := b.size;
      var g: seq<seq<Space>> := [];
      var row := 0;
      while row < n
        invariant row <= n && |g| == row
        invariant forall r :: 0 <= r < row ==> |g[r]| == n
        invariant forall r: nat, c: nat :: r < row && c < n ==>
          g[r][c] == Space(Grids.Cell(b.grid, n, r, c), Coord(r, c))
      {
        var thisRow: seq<Space> := [];
        var col := 0;
        while col < n
          invariant col <= n && |thisRow| == col
          invariant forall c: nat :: c < col ==>
            thisRow[c] == Space(Grids.Cell(b.grid, n, row, c), Coord(row, c))
        {
          var p := b.PieceAt(Coord(row, col));
          Grids.PieceAtBounds(b.grid, n, Coord(row, col));
          thisRow := thisRow + [Space(p.value, Coord(row, col))];
          col := col + 1;
        }
        g := g + [thisRow];
        row := row + 1;
      }
      FromBoardFlat(g, b.grid, n);
      size := n;
      grid := g;
      flipped := false;
    }

    /** `to_board`: place every space's piece at its label on an empty board.
        Labels are distinct, so no `place` fails; the result is the board
        read row by row, transposed if the labels are. */
    method ToBoard() returns (b: Boards.Board)
      requires Valid()
      ensures fresh(b) && b.Valid() && b.size == size
      ensures b.grid == if flipped then Grids.Transposed(Flat(), size) else Flat()
    {
      var n := size;
      b := new Boards.Board(n);
      var row := 0;
      while row < n
        invariant row <= n && b.Valid() && b.size == n
        invariant PlacedUpTo(b.grid, grid, n, flipped, row, 0)
      {
        var col := 0;
        while col < n
          invariant col <= n && b.Valid() && b.size == n
          invariant PlacedUpTo(b.grid, grid, n, flipped, row, col)
        {
          var s := grid[row][col];
          ToBoardStep(b.grid, grid, n, flipped, row, col);
          var res := b.Place(s.piece, s.coord);
          assert res.Ok?;
          col := col + 1;
        }
        assert forall r: nat, c: nat :: c < n ==> (Visited(r, c, row, n) <==> Visited(r, c, row + 1, 0));
        row := row + 1;
      }
      ToBoardDone(b.grid, grid, n, flipped);
    }

    /** `piece_at`: a row past the edge is a row error, then a column past
        the edge a column error, else the piece stored at that position. */
    function PieceAt(row: nat, col: nat): (r: Grids.Result<Piece>)
      requires Valid()
      reads this
      ensures row >= size ==> r == Grids.Err(Grids.RowIndexOutOfBounds(row, size))
      ensures row < size <= col ==> r == Grids.Err(Grids.ColIndexOutOfBounds(col, size))
      ensures row < size && col < size ==> r == Grids.Ok(Grids.Cell(Flat(), size, row, col))
    {
      if row >= size then Grids.Err(Grids.RowIndexOutOfBounds(row, size))
      else if col >= size then Grids.Err(Grids.ColIndexOutOfBounds(col, size))
      else
        FlatOfAt(grid, size, row, col);
        Grids.Ok(grid[row][col].piece)
    }

    /** `standardize`: a stub; it changes nothing. */
    method Standardize()
      requires Valid()
      ensures Valid()
    {
    }

    /** `transpose`: every space keeps its position and piece and gets its
        row and column labels swapped. */
    method Transpose()
      requires Valid()
      modifies this
      ensures Valid() && flipped == !old(flipped) && Flat() == old(Flat())
      ensures forall r: nat, c: nat :: r < size && c < size ==> grid[r][c] == Relabelled(old(grid)[r][c])
    {
      ghost var g0 := grid;
      var row := 0;
      while row < size
        invariant row <= size && |grid| == size && flipped == old(flipped)
        invariant forall r :: 0 <= r < size ==> |grid[r]| == size
        invariant forall r: nat, c: nat :: r < row && c < size ==> grid[r][c] == Relabelled(g0[r][c])
        invariant forall r: nat :: row <= r < size ==> grid[r] == g0[r]
      {
        var thisRow := grid[row];
        var col := 0;
        while col < size
          invariant col <= size && |thisRow| == size
          invariant forall c: nat :: c < col ==> thisRow[c] == Relabelled(g0[row][c])
          invariant forall c: nat :: col <= c < size ==> thisRow[c] == g0[row][c]
        {
          var s := thisRow[col];
          thisRow := thisRow[col := Space(s.piece, Coord(s.coord.col, s.coord.row))];
          col := col + 1;
        }
        grid := grid[row := thisRow];
        row := row + 1;
      }
      flipped := !flipped;
      FlatOfSame(grid, g0, size);
    }

    /** `transposed`: a relabelled copy. */
    method Transposed() returns (t: LegacyScrambledBoard)
      requires Valid()
      ensures fresh(t) && t.Valid() && t.size == size && t.flipped == !flipped && t.Flat() == Flat()
    {
      t := new LegacyScrambledBoard.Clone(this);
      t.Transpose();
    }

    /** `invert`: every piece inverted, every label kept. */
    method Invert()
      requires Valid()
      modifies this
      ensures Valid() && flipped == old(flipped)
      ensures Flat() == Grids.Inverted(old(Flat()))
      ensures forall r: nat, c: nat :: r < size && c < size ==> grid[r][c] == Inverted(old(grid)[r][c])
    {
      ghost var g0 := grid;
      var row := 0;
      while row < size
        invariant row <= size && |grid| == size && flipped == old(flipped)
        invariant forall r :: 0 <= r < size ==> |grid[r]| == size
        invariant forall r: nat, c: nat :: r < row && c < size ==> grid[r][c] == Inverted(g0[r][c])
        invariant forall r: nat :: row <= r < size ==> grid[r] == g0[r]
      {
        var thisRow := grid[row];
        var col := 0;
        while col < size
          invariant col <= size && |thisRow| == size
          invariant forall c: nat :: c < col ==> thisRow[c] == Inverted(g0[row][c])
          invariant forall c: nat :: col <= c < size ==> thisRow[c] == g0[row][c]
        {
          var s := thisRow[col];
          thisRow := thisRow[col := Space(Pieces.Inverse(s.piece), s.coord)];
          col := col + 1;
        }
        grid := grid[row := thisRow];
        row := row + 1;
      }
      FlatOfMap(grid, g0, size, Pieces.Inverse);
    }

    /** `inverse`: an inverted copy. */
    method Inverse() returns (t: LegacyScrambledBoard)
      requires Valid()
      ensures fresh(t) && t.Valid() && t.size == size && t.flipped == flipped
      ensures t.Flat() == Grids.Inverted(Flat())
    {
      t := new LegacyScrambledBoard.Clone(this);
      t.Invert();
    }

    /** `clone`. */
    constructor Clone(other: LegacyScrambledBoard)
      requires other.Valid()
      ensures Valid() && size == other.size && grid == other.grid && flipped == other.flipped
    {
      size := other.size;
      grid := other.grid;
      flipped := other.flipped;
    }
  }

  /** `to_board(from_board(b))` rebuilds `b`. */
  method RoundTrip(b: Boards.Board) returns (b': Boards.Board)
    requires b.Valid()
    ensures b'.size == b.size && b'.grid == b.grid
  {
    var s := new LegacyScrambledBoard.FromBoard(b);
    b' := s.ToBoard();
  }

  /** `to_board(from_board(b).transposed())` is the transpose of `b`. */
  method TransposedRoundTrip(b: Boards.Board) returns (b': Boards.Board)
    requires b.Valid()
    ensures b'.size == b.size && b'.grid == Grids.Transposed(b.grid, b.size)
  {
    var s := new LegacyScrambledBoard.FromBoard(b);
    s.Transpose();
    b' := s.ToBoard();
  }
}
