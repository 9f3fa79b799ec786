/** `struct Board` of `src/board.rs`: the operations that change a board in
    place. Each method states its new grid in terms of the functions of
    module Grids, which carry the properties. */
module Boards {
  import opened Pieces
  import opened Seqs
  import Grids

  class Board {
    const size: nat
    var grid: seq<Piece>

    ghost predicate Valid()
      reads this
    {
      |grid| == size * size
    }

    /** `Board::new`: an all-Empty grid. */
    constructor (size: nat)
      ensures Valid() && this.size == size
      ensures forall i :: 0 <= i < |grid| ==> grid[i] == Empty
    {
      this.size := size;
      this.grid := seq(size * size, _ => Empty);
    }

    /** A board over a given grid (`clone`, or `From<Vec<Piece>>` whose
        length is a perfect square). */
    constructor FromGrid(size: nat, grid: seq<Piece>)
      requires |grid| == size * size
      ensures Valid() && this.size == size && this.grid == grid
    {
      this.size := size;
      this.grid := grid;
    }

    /** `Board::piece_at`. */
    function PieceAt(c: Coord): Grids.Result<Piece>
      reads this
    {
      Grids.PieceAt(grid, size, c)
    }

    /** `Board::place`: fails on a coordinate `piece_at` rejects or on an
        occupied cell, leaving the board as it was; otherwise writes `p`
        into that one cell. */
    method Place(p: Piece, c: Coord) returns (r: Grids.Result<()>)
      requires Valid()
      modifies this
      ensures Valid()
      ensures r.Ok? <==> Grids.PieceAt(old(grid), size, c) == Grids.Ok(Empty)
      ensures r.Ok? ==> grid == Grids.Placed(old(grid), size, p, c).value
      ensures r.Err? ==> grid == old(grid) && r.error == Grids.Placed(old(grid), size, p, c).error
    {
      var q := PieceAt(c);
      if q.Err? {
        return Grids.Err(q.error);
      }
      if q.value != Empty {
        return Grids.Err(Grids.SpaceOccupied(c));
      }
      var idx := Grids.Idx(size, c.row, c.col);
      grid := grid[idx := p];
      r := Grids.Ok(());
    }

    /** `Board::is_full`. */
    predicate IsFull()
      reads this
    {
      Grids.IsFull(grid)
    }

    /** `Board::invert`: every cell replaced by its inverse, one by one. */
    method Invert()
      modifies this
      ensures grid == Grids.Inverted(old(grid))
    {
      var i := 0;
      while i < |grid|
        invariant 0 <= i <= |grid| == |old(grid)|
        invariant forall k :: 0 <= k < i ==> grid[k] == Pieces.Inverse(old(grid)[k])
        invariant forall k :: i <= k < |grid| ==> grid[k] == old(grid)[k]
      {
        grid := grid[i := Pieces.Inverse(grid[i])];
        i := i + 1;
      }
    }

    /** `Board::inverse`: an inverted copy; this board is unchanged. */
    method Inverse() returns (b: Board)
      requires Valid()
      ensures fresh(b) && b.Valid() && b.size == size
      ensures b.grid == Grids.Inverted(grid)
    {
      b := new Board.FromGrid(size, grid);
      b.Invert();
    }

    /** `Board::has_win`. */
    predicate HasWin(p: Piece)
      reads this
    {
      Grids.HasWin(grid, size, p)
    }

    /** `Board::transpose`: for each row, swap every cell right of the
        diagonal with its mirror image, computing the mirror index as
        `i / size + (i % size) * size`. */
    method Transpose()
      requires Valid()
      modifies this
      ensures Valid()
      ensures grid == Grids.Transposed(old(grid), size)
      ensures multiset(grid) == multiset(old(grid))
    {
      Grids.TransposedPermutation(grid, size);
      grid := Grids.TransposeSquare(grid, size);
    }

    /** `Board::transposed`: a transposed copy; this board is unchanged. */
    method Transposed() returns (t: Board)
      requires Valid()
      ensures fresh(t) && t.Valid() && t.size == size
      ensures t.grid == Grids.Transposed(grid, size)
      ensures multiset(t.grid) == multiset(grid)
    {
      t := new Board.FromGrid(size, grid);
      t.Transpose();
    }

    /** `Board::standardize`, one round: sort the rows by `row_cmp`,
        transpose, sort the rows again, and keep the transpose instead if it
        is lexicographically smaller. Cells are only moved. */
    method Standardize()
      requires Valid() && size > 0
      modifies this
      ensures Valid()
      ensures grid == Grids.Standardized(old(grid), size)
      ensures multiset(grid) == multiset(old(grid))
    {
      ghost var g0 := grid;
      Grids.StandardizedPermutation(g0, size);
      Grids.SortRowsOfGrid(grid, size);
      grid := Flatten(Grids.SortRows(Chunks(grid, size)));
      assert grid == Grids.Stages(g0, size, 1);
      Transpose();
      Grids.SortRowsOfGrid(grid, size);
      grid := Flatten(Grids.SortRows(Chunks(grid, size)));
      assert grid == Grids.Stages(g0, size, 2);
      var transposed := Transposed();
      if CompareSeq(transposed.grid, grid) == Less {
        grid := transposed.grid;
      }
    }

    /** `Board::is_standard`. */
    predicate IsStandard()
      requires Valid() && size > 0
      reads this
    {
      Grids.IsStandard(grid, size)
    }

    /** `Board::fully_standardize`: standardize while the board is not
        standard. The loop gets at most `fuel` rounds; `done` is false when
        they ran out first. */
    method FullyStandardize(fuel: nat) returns (done: bool)
      requires Valid() && size > 0
      modifies this
      ensures Valid()
      ensures done ==> IsStandard()
      ensures !done ==> !IsStandard()
      ensures old(IsStandard()) ==> done && grid == old(grid)
      ensures multiset(grid) == multiset(old(grid))
      ensures grid == Grids.Canonical(old(grid), size, fuel)
    {
      ghost var left := fuel;
      var rounds := 0;
      while !IsStandard()
        invariant Valid() && rounds <= fuel && left == fuel - rounds
        invariant multiset(grid) == multiset(old(grid))
        invariant old(IsStandard()) ==> rounds == 0 && grid == old(grid)
        invariant Grids.Canonical(grid, size, left) == Grids.Canonical(old(grid), size, fuel)
        decreases fuel - rounds
      {
        if rounds == fuel {
          return false;
        }
        ghost var before := grid;
        Standardize();
        Grids.CanonicalUnfold(before, size, left);
        left := Grids.OneFewer(left);
        rounds := rounds + 1;
      }
      done := true;
    }
  }
}
