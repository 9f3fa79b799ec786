/** `src/scrambled_board.rs`: a board whose cells remember the coordinate
    they started at, so that the canonical form computed by `standardize`
    can be mapped back to the real board. The grid is a row-major sequence
    of `Space`s; the functions here say what the operations compute, and
    the class `ScrambledBoard` performs them in place. */
module Scrambled {
  import opened Pieces
  import opened Seqs
  import Grids
  import Boards

  // ------------------------------------------------------------ views

  function PieceOf(s: Space): Piece
  {
    s.piece
  }

  function CoordOf(s: Space): Coord
  {
    s.coord
  }

  /** `bare_grid`: the pieces without their coordinates. */
  function Bare(g: seq<Space>): (r: seq<Piece>)
    ensures |r| == |g|
    ensures forall i :: 0 <= i < |g| ==> r[i] == g[i].piece
  {
    Map(g, PieceOf)
  }

  /** The carried original coordinates, in grid order. */
  function Coords(g: seq<Space>): (r: seq<Coord>)
    ensures |r| == |g|
    ensures forall i :: 0 <= i < |g| ==> r[i] == g[i].coord
  {
    Map(g, CoordOf)
  }

  /** Every coordinate of an `n` by `n` board, in row-major order. */
  function AllCoords(n: nat): (r: seq<Coord>)
    ensures |r| == n * n
  {
    seq(n * n, k requires 0 <= k < n * n =>
      Grids.IdxDecompose(n, k);
      Coord(k / n, k % n))
  }

  predicate InRange(c: Coord, n: nat)
  {
    c.row < n && c.col < n
  }

  /** Each coordinate of the board occurs once in `AllCoords`, and only
      those occur. */
  lemma AllCoordsExactly(n: nat)
    ensures Distinct(AllCoords(n))
    ensures forall c :: c in AllCoords(n) <==> InRange(c, n)
  {
    var a := AllCoords(n);
    forall i, j | 0 <= i < j < |a| ensures a[i] != a[j] {
      Grids.IdxDecompose(n, i);
      Grids.IdxDecompose(n, j);
    }
    forall c | InRange(c, n) ensures c in a {
      Grids.IdxBounds(n, c.row, c.col);
      Grids.IdxDivMod(n, c.row, c.col);
      assert a[Grids.Idx(n, c.row, c.col)] == c;
    }
    forall c | c in a ensures InRange(c, n) {
      var k :| 0 <= k < |a| && a[k] == c;
      Grids.IdxDecompose(n, k);
    }
  }

  // ------------------------------------------------------------ row_cmp

  /** `count`: occurrences of `p` in a row of spaces. */
  function Count(row: seq<Space>, p: Piece): (k: nat)
    ensures k <= |row|
  {
    Grids.Count(Bare(row), p)
  }

  /** `bare_row_cmp`: lexicographic order of the rows' pieces. */
  function BareRowCmp(l: seq<Space>, r: seq<Space>): Ordering
  {
    CompareSeq(Bare(l), Bare(r))
  }

  /** `row_cmp` on rows of spaces: identical rows (coordinates included) are
      Equal; otherwise the number of O's decides, then the number of X's,
      then `bare_row_cmp`. */
  function SpaceRowCmp(l: seq<Space>, r: seq<Space>): Ordering
  {
    if l == r then Equal
    else match CompareNat(Count(l, O), Count(r, O))
      case Less => Less
      case Greater => Greater
      case Equal =>
        match CompareNat(Count(l, X), Count(r, X))
        case Less => Less
        case Greater => Greater
        case Equal => BareRowCmp(l, r)
  }

  /** The order on rows of spaces is the board's `row_cmp` on their pieces:
      coordinates never decide. */
  lemma SpaceRowCmpBare(l: seq<Space>, r: seq<Space>)
    ensures SpaceRowCmp(l, r) == Grids.RowCmp(Bare(l), Bare(r))
  {
    CompareSeqEqual(Bare(l), Bare(r));
  }

  predicate SpaceRowLe(l: seq<Space>, r: seq<Space>)
  {
    SpaceRowCmp(l, r) != Greater
  }

  lemma SpaceRowLeBare()
    ensures forall a, b :: SpaceRowLe(a, b) == Grids.RowLe(Bare(a), Bare(b))
  {
    forall a, b ensures SpaceRowLe(a, b) == Grids.RowLe(Bare(a), Bare(b)) {
      SpaceRowCmpBare(a, b);
    }
  }

  /** `rows.sort_unstable_by(row_cmp)` on rows of spaces. */
  function SortSpaceRows(rows: seq<seq<Space>>): seq<seq<Space>>
  {
    InsertionSort(rows, SpaceRowLe)
  }

  // ------------------------------------------------- views of row lists

  lemma {:induction false} BareFlatten(rows: seq<seq<Space>>)
    ensures Bare(Flatten(rows)) == Flatten(Map(rows, Bare))
    decreases |rows|
  {
    if rows != [] {
      BareFlatten(rows[1..]);
      MapAppend(rows[0], Flatten(rows[1..]), PieceOf);
      assert Map(rows, Bare) == [Bare(rows[0])] + Map(rows[1..], Bare);
    }
  }

  lemma BareChunksStep(g: seq<Space>, n: nat)
    requires 0 < n < |g|
    ensures Chunks(Bare(g), n) == [Bare(g[..n])] + Chunks(Bare(g[n..]), n)
  {
    var b := Bare(g);
    assert b[..n] == Bare(g[..n]) && b[n..] == Bare(g[n..]);
  }

  lemma {:induction false} BareChunks(g: seq<Space>, n: nat)
    requires n > 0
    ensures Map(Chunks(g, n), Bare) == Chunks(Bare(g), n)
    decreases |g|
  {
    if |g| > n {
      var head, rest := g[..n], g[n..];
      BareChunks(rest, n);
      BareChunksStep(g, n);
      assert Chunks(g, n) == [head] + Chunks(rest, n);
      MapAppend([head], Chunks(rest, n), Bare);
      assert Map([head], Bare) == [Bare(head)];
    } else if g != [] {
      assert Map([g], Bare) == [Bare(g)];
    }
  }

  lemma {:induction false} SortedBare(rows: seq<seq<Space>>)
    ensures Sorted(rows, SpaceRowLe) <==> Sorted(Map(rows, Bare), Grids.RowLe)
  {
    SpaceRowLeBare();
  }

  /** Sorting rows of spaces, then dropping coordinates, is sorting the
      bare rows. */
  lemma BareSortRows(g: seq<Space>, n: nat)
    requires n > 0
    ensures Bare(Flatten(SortSpaceRows(Chunks(g, n)))) == Flatten(Grids.SortRows(Chunks(Bare(g), n)))
  {
    var sorted := SortSpaceRows(Chunks(g, n));
    BareFlatten(sorted);
    SpaceRowLeBare();
    InsertionSortMap(Chunks(g, n), Bare, SpaceRowLe, Grids.RowLe);
    BareChunks(g, n);
  }

  // ------------------------------------------------------ standardize

  /** The spaces with their rows sorted by `row_cmp` on their pieces. */
  function SpaceRowsSorted(g: seq<Space>, n: nat): (s: seq<Space>)
    requires n > 0 && |g| == n * n
    ensures |s| == n * n && multiset(s) == multiset(g)
  {
    Grids.SortedChunksShape(g, n, SpaceRowLe);
    Flatten(SortSpaceRows(Chunks(g, n)))
  }

  /** The spaces or their transpose, whichever has the smaller bare grid. */
  function OrientedSpaces(g: seq<Space>, n: nat): (s: seq<Space>)
    requires |g| == n * n
    ensures |s| == n * n && multiset(s) == multiset(g)
  {
    var t := Grids.Transposed(g, n);
    Grids.TransposedPermutation(g, n);
    if CompareSeq(Bare(g), Bare(t)) == Greater then t else g
  }

  /** `ScrambledBoard::standardize` stage by stage, as `Grids.Stages`,
      carrying each space's coordinate along. */
  function SpaceStages(g: seq<Space>, n: nat, k: nat): (s: seq<Space>)
    requires n > 0 && |g| == n * n && k <= 3
    ensures |s| == n * n && multiset(s) == multiset(g)
    decreases k
  {
    if k == 0 then g
    else
      var h := SpaceStages(g, n, k - 1);
      if k == 1 then SpaceRowsSorted(h, n)
      else if k == 2 then
        Grids.TransposedPermutation(h, n);
        SpaceRowsSorted(Grids.Transposed(h, n), n)
      else OrientedSpaces(h, n)
  }

  /** The grid after one `ScrambledBoard::standardize`: the board's
      standardize, carrying each space's coordinate along. The transpose
      replaces the grid when its bare grid is smaller. */
  function StandardizedSpaces(g: seq<Space>, n: nat): (s: seq<Space>)
    requires n > 0 && |g| == n * n
    ensures |s| == n * n && multiset(s) == multiset(g)
  {
    SpaceStages(g, n, 3)
  }

  /** Sorting the rows of spaces, read bare, sorts the bare rows. */
  lemma RowsSortedBare(h: seq<Space>, n: nat)
    requires n > 0 && |h| == n * n
    ensures Bare(SpaceRowsSorted(h, n)) == Grids.RowsSorted(Bare(h), n)
  {
    BareSortRows(h, n);
  }

  /** Orienting the spaces, read bare, orients the bare grid. */
  lemma OrientedBare(h: seq<Space>, n: nat)
    requires |h| == n * n
    ensures Bare(OrientedSpaces(h, n)) == Grids.Oriented(Bare(h), n)
  {
    Grids.TransposedMap(h, n, PieceOf);
    CompareSeqReverse(Bare(h), Bare(Grids.Transposed(h, n)));
  }

  /** Each stage over the spaces is that stage over the bare grid. */
  lemma {:induction false} SpaceStagesBare(g: seq<Space>, n: nat, k: nat)
    requires n > 0 && |g| == n * n && k <= 3
    ensures Bare(SpaceStages(g, n, k)) == Grids.Stages(Bare(g), n, k)
  {
    if k > 0 {
      SpaceStagesBare(g, n, k - 1);
      var h := SpaceStages(g, n, k - 1);
      if k == 1 {
        RowsSortedBare(h, n);
      } else if k == 2 {
        Grids.TransposedMap(h, n, PieceOf);
        RowsSortedBare(Grids.Transposed(h, n), n);
      } else {
        OrientedBare(h, n);
      }
    }
  }

  /** Dropping the coordinates of the standardized spaces gives the
      standardized bare grid: the carried coordinates never steer the
      canonical form. */
  lemma StandardizedSpacesBare(g: seq<Space>, n: nat)
    requires n > 0 && |g| == n * n
    ensures Bare(StandardizedSpaces(g, n)) == Grids.Standardized(Bare(g), n)
  {
    SpaceStagesBare(g, n, 3);
  }

  /** `ScrambledBoard::is_standard`: rows in `row_cmp` order, bare grid no
      greater than the transpose's, and the transpose's rows in order. */
  predicate IsStandardSpaces(g: seq<Space>, n: nat)
    requires n > 0 && |g| == n * n
  {
    && Sorted(Chunks(g, n), SpaceRowLe)
    && SeqLe(Bare(g), Bare(Grids.Transposed(g, n)))
    && Sorted(Chunks(Grids.Transposed(g, n), n), SpaceRowLe)
  }

  /** A scrambled grid is standard exactly when its bare grid is. */
  lemma IsStandardBare(g: seq<Space>, n: nat)
    requires n > 0 && |g| == n * n
    ensures IsStandardSpaces(g, n) <==> Grids.IsStandard(Bare(g), n)
  {
    var t := Grids.Transposed(g, n);
    Grids.TransposedMap(g, n, PieceOf);
    BareChunks(g, n);
    BareChunks(t, n);
    SortedBare(Chunks(g, n));
    SortedBare(Chunks(t, n));
  }

  /** After `standardize` the bare grid is never greater than the bare grid
      of its transpose. */
  lemma StandardizedSpacesNotAboveTranspose(g: seq<Space>, n: nat)
    requires n > 0 && |g| == n * n
    ensures SeqLe(Bare(StandardizedSpaces(g, n)), Bare(Grids.Transposed(StandardizedSpaces(g, n), n)))
  {
    StandardizedSpacesBare(g, n);
    Grids.TransposedMap(StandardizedSpaces(g, n), n, PieceOf);
    Grids.StandardizedNotAboveTranspose(Bare(g), n);
  }

  // -------------------------------------------------- coordinate tracking

  /** The carried coordinates are a permutation of all the board's
      coordinates, and each space holds what cell `coord` of `origin` holds. */
  ghost predicate Tracks(g: seq<Space>, n: nat, origin: seq<Piece>)
  {
    && |g| == n * n && |origin| == n * n
    && multiset(Coords(g)) == multiset(AllCoords(n))
    && forall s :: s in g ==>
         InRange(s.coord, n) && Grids.Cell(origin, n, s.coord.row, s.coord.col) == s.piece
  }

  /** Moving spaces around keeps the tracking. */
  lemma TracksPermutation(g: seq<Space>, g0: seq<Space>, n: nat, origin: seq<Piece>)
    requires Tracks(g0, n, origin) && multiset(g) == multiset(g0)
    ensures Tracks(g, n, origin)
  {
    MapPermutation(g, g0, CoordOf);
    assert |g| == |multiset(g)| == |multiset(g0)| == |g0|;
    forall i | 0 <= i < |g|
      ensures InRange(g[i].coord, n) && Grids.Cell(origin, n, g[i].coord.row, g[i].coord.col) == g[i].piece
    {
      assert g[i] in multiset(g0);
      var j :| 0 <= j < |g0| && g0[j] == g[i];
    }
  }

  /** Two spaces never carry the same coordinate. */
  lemma TracksDistinct(g: seq<Space>, n: nat, origin: seq<Piece>)
    requires Tracks(g, n, origin)
    ensures Distinct(Coords(g))
  {
    AllCoordsExactly(n);
    DistinctPermutation(Coords(g), AllCoords(n));
  }

  /** Writing each space's piece at its original cell writes every cell of
      the board. */
  lemma TracksWritesAll(g: seq<Space>, n: nat, origin: seq<Piece>, written: set<nat>, i: nat)
    requires Tracks(g, n, origin) && i == |g|
    requires written == set j | 0 <= j < i :: Grids.Idx(n, g[j].coord.row, g[j].coord.col)
    ensures forall k :: 0 <= k < n * n ==> k in written
  {
    forall k | 0 <= k < n * n ensures k in written {
      Grids.IdxDecompose(n, k);
      var c := Coord(k / n, k % n);
      TracksCovers(g, n, origin, c);
      var j :| 0 <= j < |g| && g[j].coord == c;
      assert Grids.Idx(n, g[j].coord.row, g[j].coord.col) == k;
    }
  }

  /** Every coordinate of the board is carried by some space. */
  lemma TracksCovers(g: seq<Space>, n: nat, origin: seq<Piece>, c: Coord)
    requires Tracks(g, n, origin) && InRange(c, n)
    ensures exists i :: 0 <= i < |g| && g[i].coord == c
  {
    AllCoordsExactly(n);
    assert c in multiset(Coords(g));
    var i :| 0 <= i < |g| && Coords(g)[i] == c;
  }

  /** The grid `From<Board>` builds tracks the board it came from. */
  lemma FromGridTracks(g: seq<Space>, b: seq<Piece>, n: nat)
    requires |b| == n * n && |g| == n * n
    requires forall k :: 0 <= k < |g| ==> g[k] == Space(b[k], Coord(k / n, k % n))
    ensures Tracks(g, n, b) && Bare(g) == b && Coords(g) == AllCoords(n)
  {
    forall k | 0 <= k < |g|
      ensures InRange(g[k].coord, n) && Grids.Cell(b, n, g[k].coord.row, g[k].coord.col) == g[k].piece
      ensures Coords(g)[k] == AllCoords(n)[k]
    {
      Grids.IdxDecompose(n, k);
    }
    assert Coords(g) == AllCoords(n);
  }

  /** Writing a piece into one space, and into the cell of the real board
      that space came from, keeps the tracking. */
  lemma TracksPlace(g: seq<Space>, n: nat, origin: seq<Piece>, c: Coord, p: Piece)
    requires Tracks(g, n, origin) && InRange(c, n)
    ensures InRange(Grids.Cell(g, n, c.row, c.col).coord, n)
    ensures
      var s := Grids.Cell(g, n, c.row, c.col);
      Tracks(Grids.SetCell(g, n, c.row, c.col, Space(p, s.coord)), n,
             Grids.SetCell(origin, n, s.coord.row, s.coord.col, p))
  {
    var k := Grids.Idx(n, c.row, c.col);
    Grids.IdxBounds(n, c.row, c.col);
    var s := g[k];
    var o := Grids.Idx(n, s.coord.row, s.coord.col);
    Grids.IdxBounds(n, s.coord.row, s.coord.col);
    TracksDistinct(g, n, origin);
    var g', origin' := g[k := Space(p, s.coord)], origin[o := p];
    assert Coords(g') == Coords(g);
    forall i | 0 <= i < |g'|
      ensures InRange(g'[i].coord, n) && Grids.Cell(origin', n, g'[i].coord.row, g'[i].coord.col) == g'[i].piece
    {
      var ci := g'[i].coord;
      Grids.IdxBounds(n, ci.row, ci.col);
      if i != k && Grids.Idx(n, ci.row, ci.col) == o {
        Grids.IdxInjective(n, ci.row, ci.col, s.coord.row, s.coord.col);
      }
    }
  }

  /** `space_at` on a grid of spaces: a row past the edge is a row error,
      then a column past the edge a column error, and an in-range
      coordinate reads its own cell, so rows never alias. */
  function SpaceAtIn(g: seq<Space>, n: nat, c: Coord): (r: Grids.Result<Space>)
    requires |g| == n * n
    ensures c.row >= n ==> r == Grids.Err(Grids.RowIndexOutOfBounds(c.row, n))
    ensures c.row < n <= c.col ==> r == Grids.Err(Grids.ColIndexOutOfBounds(c.col, n))
    ensures r.Ok? <==> InRange(c, n)
    ensures r.Ok? ==> r.value == Grids.Cell(g, n, c.row, c.col)
  {
    if c.row >= n then Grids.Err(Grids.RowIndexOutOfBounds(c.row, n))
    else if c.col >= n then Grids.Err(Grids.ColIndexOutOfBounds(c.col, n))
    else Grids.Ok(Grids.Cell(g, n, c.row, c.col))
  }

  /** `piece_at` on a grid of spaces: the piece of `space_at`, or its error. */
  function SpacePieceAt(g: seq<Space>, n: nat, c: Coord): (r: Grids.Result<Piece>)
    requires |g| == n * n
    ensures r.Ok? <==> InRange(c, n)
    ensures r.Err? ==> r.error == SpaceAtIn(g, n, c).error
    ensures r.Ok? ==> r.value == Grids.Cell(g, n, c.row, c.col).piece
  {
    match SpaceAtIn(g, n, c)
    case Err(e) => Grids.Err(e)
    case Ok(s) => Grids.Ok(s.piece)
  }

  class ScrambledBoard {
    const size: nat
    var grid: seq<Space>
    /** The real board this scrambled board stands for. */
    ghost var origin: seq<Piece>

    ghost predicate Valid()
      reads this
    {
      Tracks(grid, size, origin)
    }

    /** `From<Board>`: the space at flat index `i` holds the board's piece
        there and the coordinate `(i / size, i % size)`. */
    constructor FromBoard(b: Boards.Board)
      requires b.Valid()
      ensures Valid() && size == b.size && origin == b.grid
      ensures Bare(grid) == b.grid && Coords(grid) == AllCoords(size)
    {
      var n := b.size;
      var g: seq<Space> := [];
      var i := 0;
      while i < |b.grid|
        invariant 0 <= i <= |b.grid| && |g| == i
        invariant forall k :: 0 <= k < i ==> g[k] == Space(b.grid[k], Coord(k / n, k % n))
      {
        g := g + [Space(b.grid[i], Coord(i / n, i % n))];
        i := i + 1;
      }
      FromGridTracks(g, b.grid, n);
      size := n;
      grid := g;
      origin := b.grid;
    }

    /** `clone`. */
    constructor Clone(other: ScrambledBoard)
      requires other.Valid()
      ensures Valid() && size == other.size && grid == other.grid && origin == other.origin
    {
      size := other.size;
      grid := other.grid;
      origin := other.origin;
    }

    /** `bare_grid`. */
    function BareGrid(): seq<Piece>
      reads this
    {
      Bare(grid)
    }

    /** `to_original_board`: place every space's piece at its original
        coordinate on an empty board. The coordinates being a permutation,
        no `place` fails and every cell is written once, so the result is
        the board this one stands for. */
    method ToOriginalBoard() returns (b: Boards.Board)
      requires Valid()
      ensures fresh(b) && b.Valid() && b.size == size && b.grid == origin
    {
      var n := size;
      b := new Boards.Board(n);
      TracksDistinct(grid, n, origin);
      ghost var written: set<nat> := {};
      var i := 0;
      while i < |grid|
        invariant 0 <= i <= |grid| && b.Valid() && b.size == n
        invariant written == set j | 0 <= j < i :: Grids.Idx(n, grid[j].coord.row, grid[j].coord.col)
        invariant forall k :: 0 <= k < n * n ==> b.grid[k] == if k in written then origin[k] else Empty
      {
        var s := grid[i];
        var k := Grids.Idx(n, s.coord.row, s.coord.col);
        Grids.IdxBounds(n, s.coord.row, s.coord.col);
        if k in written {
          var j :| 0 <= j < i && k == Grids.Idx(n, grid[j].coord.row, grid[j].coord.col);
          Grids.IdxInjective(n, s.coord.row, s.coord.col, grid[j].coord.row, grid[j].coord.col);
          assert false;
        }
        var r := b.Place(s.piece, s.coord);
        assert r.Ok?;
        written := written + {k};
        i := i + 1;
      }
      TracksWritesAll(grid, n, origin, written, i);
    }

    /** The canonical board as a cache key (`to_board`, and
        `Board::from(&ScrambledBoard)` in the ground-up solver): the bare
        grid as a board of the same size. */
    method ToBoard() returns (b: Boards.Board)
      requires Valid()
      ensures fresh(b) && b.Valid() && b.size == size && b.grid == Bare(grid)
    {
      b := new Boards.Board.FromGrid(size, Bare(grid));
    }

    /** `space_at`. */
    function SpaceAt(c: Coord): Grids.Result<Space>
      requires |grid| == size * size
      reads this
    {
      SpaceAtIn(grid, size, c)
    }

    /** `piece_at`. */
    function PieceAt(c: Coord): Grids.Result<Piece>
      requires |grid| == size * size
      reads this
    {
      SpacePieceAt(grid, size, c)
    }

    /** `place`: on an in-range Empty cell, sets that space's piece and keeps
        its original coordinate, so the real board gets `p` at that
        coordinate; otherwise returns the error and changes nothing. */
    method Place(p: Piece, c: Coord) returns (r: Grids.Result<()>)
      requires Valid()
      modifies this
      ensures Valid()
      ensures r.Ok? <==> SpacePieceAt(old(grid), size, c) == Grids.Ok(Empty)
      ensures r.Err? && SpacePieceAt(old(grid), size, c).Err? ==> r.error == SpacePieceAt(old(grid), size, c).error
      ensures r.Err? && SpacePieceAt(old(grid), size, c).Ok? ==> r.error == Grids.SpaceOccupied(c)
      ensures r.Err? ==> grid == old(grid) && origin == old(origin)
      ensures r.Ok? ==>
        var s := Grids.Cell(old(grid), size, c.row, c.col);
        && grid == Grids.SetCell(old(grid), size, c.row, c.col, Space(p, s.coord))
        && origin == Grids.SetCell(old(origin), size, s.coord.row, s.coord.col, p)
    {
      var q := SpacePieceAt(grid, size, c);
      if q.Err? {
        return Grids.Err(q.error);
      }
      if q.value != Empty {
        return Grids.Err(Grids.SpaceOccupied(c));
      }
      var s := Grids.Cell(grid, size, c.row, c.col);
      TracksPlace(grid, size, origin, c, p);
      origin := Grids.SetCell(origin, size, s.coord.row, s.coord.col, p);
      grid := Grids.SetCell(grid, size, c.row, c.col, Space(p, s.coord));
      r := Grids.Ok(());
    }

    /** `transpose`: the same swaps as the board's, with the mirror index
        computed as `(i % size) * size + i / size`. Spaces move with their
        coordinates, so the real board is unchanged. */
    method Transpose()
      requires Valid()
      modifies this
      ensures Valid() && origin == old(origin)
      ensures grid == Grids.Transposed(old(grid), size)
    {
      Grids.TransposedPermutation(grid, size);
      TracksPermutation(Grids.Transposed(grid, size), grid, size, origin);
      grid := Grids.TransposeSquare(grid, size);
    }

    /** `transposed`: a transposed copy. */
    method Transposed() returns (t: ScrambledBoard)
      requires Valid()
      ensures fresh(t) && t.Valid() && t.size == size && t.origin == origin
      ensures t.grid == Grids.Transposed(grid, size)
    {
      t := new ScrambledBoard.Clone(this);
      t.Transpose();
    }

    /** `invert`: every piece inverted, every coordinate kept, so the real
        board is inverted too. */
    method Invert()
      requires Valid()
      modifies this
      ensures Valid()
      ensures Bare(grid) == Grids.Inverted(Bare(old(grid)))
      ensures Coords(grid) == Coords(old(grid))
      ensures origin == Grids.Inverted(old(origin))
    {
      ghost var g0 := grid;
      var i := 0;
      while i < |grid|
        invariant 0 <= i <= |grid| == |g0| && origin == old(origin)
        invariant forall k :: 0 <= k < i ==> grid[k] == Space(Pieces.Inverse(g0[k].piece), g0[k].coord)
        invariant forall k :: i <= k < |grid| ==> grid[k] == g0[k]
      {
        grid := grid[i := Space(Pieces.Inverse(grid[i].piece), grid[i].coord)];
        i := i + 1;
      }
      origin := Grids.Inverted(origin);
      assert Coords(grid) == Coords(g0);
      forall k | 0 <= k < |grid|
        ensures InRange(grid[k].coord, size) && Grids.Cell(origin, size, grid[k].coord.row, grid[k].coord.col) == grid[k].piece
      {
        Grids.IdxBounds(size, g0[k].coord.row, g0[k].coord.col);
      }
    }

    /** `inverse`: an inverted copy. */
    method Inverse() returns (t: ScrambledBoard)
      requires Valid()
      ensures fresh(t) && t.Valid() && t.size == size
      ensures Bare(t.grid) == Grids.Inverted(Bare(grid)) && Coords(t.grid) == Coords(grid)
      ensures t.origin == Grids.Inverted(origin)
    {
      t := new ScrambledBoard.Clone(this);
      t.Invert();
    }

    /** `standardize`: one round of the board's canonicalisation over the
        spaces. Only spaces move, so the real board is unchanged, and the
        bare grid becomes the standardized bare grid. */
    method Standardize()
      requires Valid() && size > 0
      modifies this
      ensures Valid() && origin == old(origin)
      ensures grid == StandardizedSpaces(old(grid), size)
      ensures BareGrid() == Grids.Standardized(old(BareGrid()), size)
    {
      var n := size;
      ghost var g0 := grid;
      Grids.SortedChunksShape(grid, n, SpaceRowLe);
      grid := Flatten(SortSpaceRows(Chunks(grid, n)));
      ghost var g1 := grid;
      assert g1 == SpaceStages(g0, n, 1);
      TracksPermutation(g1, g0, n, origin);
      Transpose();
      ghost var g2 := grid;
      Grids.TransposedPermutation(g1, n);
      Grids.SortedChunksShape(g2, n, SpaceRowLe);
      grid := Flatten(SortSpaceRows(Chunks(grid, n)));
      ghost var g3 := grid;
      assert g3 == SpaceStages(g0, n, 2);
      TracksPermutation(g3, g0, n, origin);
      var transposed := Transposed();
      if CompareSeq(Bare(grid), Bare(transposed.grid)) == Greater {
        grid := transposed.grid;
      }
      assert grid == StandardizedSpaces(g0, n);
      StandardizedSpacesBare(g0, n);
    }

    /** `is_standard`. */
    predicate IsStandard()
      requires Valid() && size > 0
      reads this
    {
      IsStandardSpaces(grid, size)
    }

    /** `fully_standardize`: standardize until standard, for at most `fuel`
        rounds; `done` is false when they ran out first. */
    method FullyStandardize(fuel: nat) returns (done: bool)
      requires Valid() && size > 0
      modifies this
      ensures Valid() && origin == old(origin)
      ensures done <==> IsStandard()
      ensures old(IsStandard()) ==> done && grid == old(grid)
      ensures BareGrid() == Grids.Canonical(old(BareGrid()), size, fuel)
    {
      ghost var start := Bare(grid);
      ghost var left := fuel;
      var rounds := 0;
      while !IsStandard()
        invariant Valid() && rounds <= fuel && origin == old(origin) && left == fuel - rounds
        invariant Grids.Canonical(Bare(grid), size, left) == Grids.Canonical(start, size, fuel)
        invariant old(IsStandard()) ==> rounds == 0 && grid == old(grid)
        decreases fuel - rounds
      {
        if rounds == fuel {
          return false;
        }
        IsStandardBare(grid, size);
        ghost var before := Bare(grid);
        Standardize();
        Grids.CanonicalUnfold(before, size, left);
        left := Grids.OneFewer(left);
        rounds := rounds + 1;
      }
      IsStandardBare(grid, size);
      done := true;
    }
  }
}
