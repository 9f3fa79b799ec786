/** The pure part of `src/board.rs`: a board is `size` and a row-major
    `grid` of `size * size` pieces; this module holds the functions that
    read a grid (`piece_at`, `is_full`, `has_win`, `row_cmp`,
    `is_standard`) and the value-level meaning of the operations that
    rewrite it (`place`, `invert`, `transpose`, `standardize`). */
module Grids {
  import opened Pieces
  import opened Seqs

  // ---------------------------------------------------------------- indices

  /** `flat_index`: `row * size + col`. */
  function Idx(n: nat, row: nat, col: nat): nat
  {
    row * n + col
  }

  lemma {:induction false} MulMono(a: nat, b: nat, n: nat)
    requires a <= b
    ensures a * n <= b * n
    decreases b - a
  {
    if a < b {
      MulMono(a, b - 1, n);
      assert b * n == (b - 1) * n + n;
    }
  }

  lemma OnlyZeroMultipleBelow(n: int, d: int)
    requires n > 0 && -n < n * d < n
    ensures d == 0
  {
    if d >= 1 {
      MulMono(1, d, n);
    }
  }

  lemma IdxDivMod(n: nat, r: nat, c: nat)
    requires c < n
    ensures Idx(n, r, c) / n == r && Idx(n, r, c) % n == c
  {
    var k := Idx(n, r, c);
    var q, m := k / n, k % n;
    assert k == n * q + m && 0 <= m < n;
    assert n * (q - r) == n * q - n * r;
    assert r * n == n * r;
    OnlyZeroMultipleBelow(n, q - r);
  }

  lemma IdxBounds(n: nat, r: nat, c: nat)
    requires r < n && c < n
    ensures Idx(n, r, c) < n * n
  {
    MulMono(r, n - 1, n);
    assert (n - 1) * n == n * n - n;
  }

  lemma IdxDecompose(n: nat, k: nat)
    requires k < n * n
    ensures n > 0 && k / n < n && k % n < n && k == Idx(n, k / n, k % n)
  {
    assert n > 0;
    var q, m := k / n, k % n;
    assert k == n * q + m;
    if q >= n {
      MulMono(n, q, n);
    }
  }

  lemma IdxInjective(n: nat, r1: nat, c1: nat, r2: nat, c2: nat)
    requires c1 < n && c2 < n && Idx(n, r1, c1) == Idx(n, r2, c2)
    ensures r1 == r2 && c1 == c2
  {
    IdxDivMod(n, r1, c1);
    IdxDivMod(n, r2, c2);
  }

  // ------------------------------------------------------- reading a cell

  /** `GridError`. */
  datatype GridError =
    | RowIndexOutOfBounds(idxFound: nat, boardSize: nat)
    | ColIndexOutOfBounds(idxFound: nat, boardSize: nat)
    | SpaceOccupied(at: Coord)

  datatype Result<T> = Ok(value: T) | Err(error: GridError)

  /** `Board::piece_at`: the flat index decides success, the row decides which error. */
  function PieceAt(g: seq<Piece>, n: nat, c: Coord): (r: Result<Piece>)
    ensures r.Ok? <==> Idx(n, c.row, c.col) < |g|
    ensures r.Ok? ==> r.value == g[Idx(n, c.row, c.col)]
  {
    var i := Idx(n, c.row, c.col);
    if i < |g| then Ok(g[i])
    else if c.row >= n then Err(RowIndexOutOfBounds(c.row, n))
    else Err(ColIndexOutOfBounds(c.col, n))
  }

  /** On a well-sized grid: in-range coordinates succeed, a row past the edge
      is a row error, and a column past the edge is a column error only when
      the flat index also runs off the grid. */
  lemma PieceAtBounds(g: seq<Piece>, n: nat, c: Coord)
    requires |g| == n * n
    ensures c.row < n && c.col < n ==>
      Idx(n, c.row, c.col) < |g| && PieceAt(g, n, c) == Ok(g[Idx(n, c.row, c.col)])
    ensures c.row >= n ==> PieceAt(g, n, c) == Err(RowIndexOutOfBounds(c.row, n))
    ensures c.row < n && PieceAt(g, n, c).Err? ==> PieceAt(g, n, c) == Err(ColIndexOutOfBounds(c.col, n))
  {
    if c.row < n && c.col < n {
      IdxBounds(n, c.row, c.col);
    } else if c.row >= n {
      RowPastEdge(n, c.row, c.col);
    }
  }

  lemma RowPastEdge(n: nat, row: nat, col: nat)
    requires row >= n
    ensures Idx(n, row, col) >= n * n
  {
    MulMono(n, row, n);
  }

  /** The aliasing the flat index allows: one column past the end of a row
      that is not the last reads the first cell of the next row. */
  lemma PieceAtAliases(g: seq<Piece>, n: nat, row: nat)
    requires |g| == n * n && row + 1 < n
    ensures PieceAt(g, n, Coord(row, n)).Ok?
    ensures PieceAt(g, n, Coord(row, n)) == PieceAt(g, n, Coord(row + 1, 0))
  {
    assert Idx(n, row, n) == (row + 1) * n;
    IdxBounds(n, row + 1, 0);
  }

  // --------------------------------------------------- rewriting a cell

  /** The grid that `Board::place(p, c)` leaves behind, or the error it returns. */
  function Placed(g: seq<Piece>, n: nat, p: Piece, c: Coord): (r: Result<seq<Piece>>)
    ensures r.Ok? <==> PieceAt(g, n, c) == Ok(Empty)
    ensures r.Err? && PieceAt(g, n, c).Ok? ==> r.error == SpaceOccupied(c)
    ensures r.Err? && PieceAt(g, n, c).Err? ==> r.error == PieceAt(g, n, c).error
    ensures r.Ok? ==> |r.value| == |g| && r.value[Idx(n, c.row, c.col)] == p
    ensures r.Ok? ==> forall i :: 0 <= i < |g| && i != Idx(n, c.row, c.col) ==> r.value[i] == g[i]
  {
    match PieceAt(g, n, c)
    case Err(e) => Err(e)
    case Ok(q) =>
      if q != Empty then Err(SpaceOccupied(c))
      else Ok(g[Idx(n, c.row, c.col) := p])
  }

  /** `Board::is_full`. */
  predicate IsFull(g: seq<Piece>)
  {
    Empty !in g
  }

  /** Number of occurrences of `p`. */
  function Count(s: seq<Piece>, p: Piece): nat
  {
    multiset(s)[p]
  }

  /** A successful `place` of a real piece fills exactly one Empty cell. */
  lemma PlacedCount(g: seq<Piece>, n: nat, p: Piece, c: Coord)
    requires p != Empty && Placed(g, n, p, c).Ok?
    ensures Count(Placed(g, n, p, c).value, Empty) + 1 == Count(g, Empty)
  {
    var i := Idx(n, c.row, c.col);
    var r := Placed(g, n, p, c).value;
    assert r == g[i := p];
    assert g == g[..i] + [Empty] + g[i + 1..];
    assert r == g[..i] + [p] + g[i + 1..];
  }

  /** The grid after `Board::invert`. */
  function Inverted(g: seq<Piece>): (r: seq<Piece>)
    ensures |r| == |g|
  {
    Map(g, Inverse)
  }

  lemma InvertedInvolution(g: seq<Piece>)
    ensures Inverted(Inverted(g)) == g
  {
  }

  /** Inverting swaps the X and O counts and keeps the Empty count. */
  lemma {:induction false} InvertedCounts(g: seq<Piece>)
    ensures Count(Inverted(g), Empty) == Count(g, Empty)
    ensures Count(Inverted(g), X) == Count(g, O)
    ensures Count(Inverted(g), O) == Count(g, X)
    decreases |g|
  {
    if g != [] {
      var head, tail := [g[0]], g[1..];
      InvertedCounts(tail);
      assert g == head + tail;
      MapAppend(head, tail, Inverse);
      assert Inverted(head) == [Inverse(g[0])];
      assert multiset(Inverted(g)) == multiset{Inverse(g[0])} + multiset(Inverted(tail));
      assert multiset(g) == multiset{g[0]} + multiset(tail);
    }
  }

  // ------------------------------------------------------------ has_win

  /** `0..n` collected into a vector. */
  function Range(n: nat): (r: seq<nat>)
    ensures |r| == n && forall i :: 0 <= i < n ==> r[i] == i
  {
    seq(n, i => i)
  }

  /** `Vec::remove(i)` on a copy. */
  function RemoveIndex(s: seq<nat>, i: nat): (r: seq<nat>)
    requires i < |s|
    ensures |r| == |s| - 1
  {
    s[..i] + s[i + 1..]
  }

  lemma RemoveIndexMembers(s: seq<nat>, i: nat, x: nat)
    requires i < |s| && Distinct(s)
    ensures x in RemoveIndex(s, i) <==> x in s && x != s[i]
    ensures Distinct(RemoveIndex(s, i))
  {
    assert s == s[..i] + [s[i]] + s[i + 1..];
    var r := RemoveIndex(s, i);
    forall a, b | 0 <= a < b < |r| ensures r[a] != r[b] {
      var a' := if a < i then a else a + 1;
      var b' := if b < i then b else b + 1;
      assert r[a] == s[a'] && r[b] == s[b'];
    }
  }

  /** `has_win_recursive`: match the first remaining row with every remaining
      column holding the piece, in order, and recurse on the rest. */
  function HasWinRecursive(g: seq<Piece>, n: nat, p: Piece, rows: seq<nat>, cols: seq<nat>): bool
    decreases |rows|, |cols| + 1
  {
    if rows == [] then true else TryColumns(g, n, p, rows, cols, 0)
  }

  /** The `for (i, &col) in remaining_cols` loop of `has_win_recursive`, from index `i` on. */
  function TryColumns(g: seq<Piece>, n: nat, p: Piece, rows: seq<nat>, cols: seq<nat>, i: nat): bool
    requires rows != [] && i <= |cols|
    decreases |rows|, |cols| - i
  {
    if i == |cols| then false
    else
      (PieceAt(g, n, Coord(rows[0], cols[i])) == Ok(p)
        && HasWinRecursive(g, n, p, rows[1..], RemoveIndex(cols, i)))
      || TryColumns(g, n, p, rows, cols, i + 1)
  }

  /** `Board::has_win`. */
  function HasWin(g: seq<Piece>, n: nat, p: Piece): bool
  {
    HasWinRecursive(g, n, p, Range(n), Range(n))
  }

  /** `a` assigns row `rows[k]` the distinct column `a[k]` from `cols`, holding `p`. */
  ghost predicate IsMatching(g: seq<Piece>, n: nat, p: Piece, rows: seq<nat>, cols: seq<nat>, a: seq<nat>)
  {
    && |a| == |rows|
    && Distinct(a)
    && forall k :: 0 <= k < |a| ==> a[k] in cols && PieceAt(g, n, Coord(rows[k], a[k])) == Ok(p)
  }

  /** `sigma` is a transversal of `p`: a bijection from rows to columns whose cells all hold `p`. */
  ghost predicate IsTransversal(g: seq<Piece>, n: nat, p: Piece, sigma: seq<nat>)
  {
    && |sigma| == n
    && Distinct(sigma)
    && forall r :: 0 <= r < n ==> sigma[r] < n && PieceAt(g, n, Coord(r, sigma[r])) == Ok(p)
  }

  ghost predicate HasTransversal(g: seq<Piece>, n: nat, p: Piece)
  {
    exists sigma :: IsTransversal(g, n, p, sigma)
  }

  lemma {:induction false} MatchSound(g: seq<Piece>, n: nat, p: Piece, rows: seq<nat>, cols: seq<nat>) returns (a: seq<nat>)
    requires Distinct(cols) && HasWinRecursive(g, n, p, rows, cols)
    ensures IsMatching(g, n, p, rows, cols, a)
    decreases |rows|, |cols| + 1
  {
    if rows == [] {
      a := [];
    } else {
      a := TrySound(g, n, p, rows, cols, 0);
    }
  }

  lemma {:induction false} TrySound(g: seq<Piece>, n: nat, p: Piece, rows: seq<nat>, cols: seq<nat>, i: nat) returns (a: seq<nat>)
    requires rows != [] && i <= |cols| && Distinct(cols) && TryColumns(g, n, p, rows, cols, i)
    ensures IsMatching(g, n, p, rows, cols, a)
    decreases |rows|, |cols| - i
  {
    var rest := RemoveIndex(cols, i);
    if PieceAt(g, n, Coord(rows[0], cols[i])) == Ok(p) && HasWinRecursive(g, n, p, rows[1..], rest) {
      RemoveIndexMembers(cols, i, 0);
      var tail := MatchSound(g, n, p, rows[1..], rest);
      forall k | 0 <= k < |tail|
        ensures tail[k] in cols && tail[k] != cols[i]
      {
        RemoveIndexMembers(cols, i, tail[k]);
      }
      a := [cols[i]] + tail;
      forall k | 0 <= k < |a|
        ensures a[k] in cols && PieceAt(g, n, Coord(rows[k], a[k])) == Ok(p)
      {
        if k > 0 {
          assert a[k] == tail[k - 1] && rows[k] == rows[1..][k - 1];
        }
      }
    } else {
      a := TrySound(g, n, p, rows, cols, i + 1);
    }
  }

  lemma {:induction false} TryReaches(g: seq<Piece>, n: nat, p: Piece, rows: seq<nat>, cols: seq<nat>, j: nat, i: nat)
    requires rows != [] && j <= i < |cols|
    requires PieceAt(g, n, Coord(rows[0], cols[i])) == Ok(p)
    requires HasWinRecursive(g, n, p, rows[1..], RemoveIndex(cols, i))
    ensures TryColumns(g, n, p, rows, cols, j)
    decreases i - j
  {
    if j < i {
      TryReaches(g, n, p, rows, cols, j + 1, i);
    }
  }

  lemma {:induction false} MatchComplete(g: seq<Piece>, n: nat, p: Piece, rows: seq<nat>, cols: seq<nat>, a: seq<nat>)
    requires Distinct(cols) && IsMatching(g, n, p, rows, cols, a)
    ensures HasWinRecursive(g, n, p, rows, cols)
    decreases |rows|
  {
    if rows != [] {
      assert a[0] in cols;
      var i :| 0 <= i < |cols| && cols[i] == a[0];
      var rest := RemoveIndex(cols, i);
      RemoveIndexMembers(cols, i, 0);
      forall k | 0 <= k < |a| - 1
        ensures a[1..][k] in rest
      {
        assert a[1..][k] == a[k + 1] != a[0];
        RemoveIndexMembers(cols, i, a[k + 1]);
      }
      forall k | 0 <= k < |a| - 1
        ensures PieceAt(g, n, Coord(rows[1..][k], a[1..][k])) == Ok(p)
      {
        assert rows[1..][k] == rows[k + 1] && a[1..][k] == a[k + 1];
      }
      assert IsMatching(g, n, p, rows[1..], rest, a[1..]);
      MatchComplete(g, n, p, rows[1..], rest, a[1..]);
      TryReaches(g, n, p, rows, cols, 0, i);
    }
  }

  /** `has_win` decides exactly whether the piece holds a transversal. */
  lemma HasWinCorrect(g: seq<Piece>, n: nat, p: Piece)
    ensures HasWin(g, n, p) <==> HasTransversal(g, n, p)
  {
    var all := Range(n);
    if HasWin(g, n, p) {
      var a := MatchSound(g, n, p, all, all);
      assert IsTransversal(g, n, p, a);
    }
    if HasTransversal(g, n, p) {
      var sigma :| IsTransversal(g, n, p, sigma);
      forall k | 0 <= k < n ensures sigma[k] in all {
        assert all[sigma[k]] == sigma[k];
      }
      assert IsMatching(g, n, p, all, all, sigma);
      MatchComplete(g, n, p, all, all, sigma);
    }
  }

  // ---------------------------------------------------------- transpose

  /** The grid after `transpose`: cell `(r, c)` holds what was at `(c, r)`. */
  function Transposed<T>(g: seq<T>, n: nat): (t: seq<T>)
    requires |g| == n * n
    ensures |t| == n * n
  {
    seq(n * n, k requires 0 <= k < n * n =>
      IdxDecompose(n, k);
      IdxBounds(n, k % n, k / n);
      g[Idx(n, k % n, k / n)])
  }

  lemma TransposedAt<T>(g: seq<T>, n: nat, r: nat, c: nat)
    requires |g| == n * n && r < n && c < n
    ensures Idx(n, r, c) < n * n && Idx(n, c, r) < n * n
    ensures Transposed(g, n)[Idx(n, r, c)] == g[Idx(n, c, r)]
  {
    IdxBounds(n, r, c);
    IdxBounds(n, c, r);
    IdxDivMod(n, r, c);
  }

  lemma TransposedTwiceAt<T>(g: seq<T>, n: nat, k: nat)
    requires |g| == n * n && k < n * n
    ensures Transposed(Transposed(g, n), n)[k] == g[k]
  {
    var t := Transposed(g, n);
    IdxDecompose(n, k);
    var r, c := k / n, k % n;
    TransposedAt(t, n, r, c);
    TransposedAt(g, n, c, r);
  }

  /** Transposing twice gives the grid back. */
  lemma TransposedInvolution<T>(g: seq<T>, n: nat)
    requires |g| == n * n
    ensures Transposed(Transposed(g, n), n) == g
  {
    forall k | 0 <= k < n * n
      ensures Transposed(Transposed(g, n), n)[k] == g[k]
    {
      TransposedTwiceAt(g, n, k);
    }
  }

  /** Transposition commutes with a cell-wise map. */
  lemma TransposedMap<A, B>(g: seq<A>, n: nat, f: A -> B)
    requires |g| == n * n
    ensures Transposed(Map(g, f), n) == Map(Transposed(g, n), f)
  {
    var a, b := Transposed(Map(g, f), n), Map(Transposed(g, n), f);
    forall k | 0 <= k < n * n ensures a[k] == b[k] {
      IdxDecompose(n, k);
      TransposedAt(g, n, k / n, k % n);
      TransposedAt(Map(g, f), n, k / n, k % n);
    }
  }

  /** The in-place `transpose` loop shared by both boards: for each row,
      swap every cell right of the diagonal with its mirror below it. */
  method TransposeSquare<T>(g: seq<T>, n: nat) returns (t: seq<T>)
    requires |g| == n * n
    ensures t == Transposed(g, n)
  {
    t := g;
    var row := 0;
    while row < n
      invariant 0 <= row <= n && |t| == n * n
      invariant TransposedUpTo(t, g, n, row, row + 1)
    {
      assert row * (n + 1) + 1 == Idx(n, row, row + 1);
      assert (row + 1) * n == Idx(n, row, n);
      var i := row * (n + 1) + 1;
      ghost var col := row + 1;
      while i < (row + 1) * n
        invariant row < col <= n && i == Idx(n, row, col) && |t| == n * n
        invariant TransposedUpTo(t, g, n, row, col)
      {
        IdxDivMod(n, row, col);
        var j := i / n + (i % n) * n;
        assert j == Idx(n, col, row);
        TransposeStep(t, g, n, row, col);
        t := Swap(t, i, j);
        i := i + 1;
        col := col + 1;
      }
      TransposeNextRow(t, g, n, row);
      row := row + 1;
    }
    TransposeDone(t, g, n);
  }

  /** Transposing only moves cells. */
  lemma TransposedPermutation<T>(g: seq<T>, n: nat)
    requires |g| == n * n
    ensures multiset(Transposed(g, n)) == multiset(g)
  {
    var t := Transposed(g, n);
    var g0 := g;
    var cur := g;
    var row := 0;
    while row < n
      invariant 0 <= row <= n && |cur| == n * n
      invariant multiset(cur) == multiset(g0)
      invariant TransposedUpTo(cur, g0, n, row, row + 1)
    {
      var col := row + 1;
      while col < n
        invariant row < col <= n && |cur| == n * n
        invariant multiset(cur) == multiset(g0)
        invariant TransposedUpTo(cur, g0, n, row, col)
      {
        TransposeStep(cur, g0, n, row, col);
        cur := Swap(cur, Idx(n, row, col), Idx(n, col, row));
        col := col + 1;
      }
      TransposeNextRow(cur, g0, n, row);
      row := row + 1;
    }
    TransposeDone(cur, g0, n);
  }

  /** The cell at `(r, c)` of a square grid. */
  function Cell<T>(g: seq<T>, n: nat, r: nat, c: nat): (v: T)
    requires |g| == n * n && r < n && c < n
    ensures v in g
  {
    IdxBounds(n, r, c);
    g[Idx(n, r, c)]
  }

  /** The grid with cell `(r, c)` replaced by `v`. */
  function SetCell<T>(g: seq<T>, n: nat, r: nat, c: nat, v: T): (g': seq<T>)
    requires |g| == n * n && r < n && c < n
    ensures |g'| == n * n
  {
    IdxBounds(n, r, c);
    g[Idx(n, r, c) := v]
  }

  /** `Vec::swap(i, j)`. */
  function Swap<T>(g: seq<T>, i: nat, j: nat): (r: seq<T>)
    requires i < |g| && j < |g|
    ensures |r| == |g| && multiset(r) == multiset(g)
  {
    g[i := g[j]][j := g[i]]
  }

  /** Whether the in-place transpose loop has already swapped cell `(a, b)`
      when it is about to swap `(row, col)` with `(col, row)`. */
  predicate Swapped(a: nat, b: nat, row: nat, col: nat)
  {
    if a < b then a < row || (a == row && b < col)
    else if b < a then b < row || (b == row && a < col)
    else false
  }

  /** Loop invariant of the in-place transpose: swapped cells hold the
      mirrored cell of the original grid, the others are untouched. */
  ghost predicate TransposedUpTo<T>(g: seq<T>, g0: seq<T>, n: nat, row: nat, col: nat)
    requires |g| == n * n && |g0| == n * n
  {
    forall a: nat, b: nat :: a < n && b < n ==>
      Cell(g, n, a, b) == (if Swapped(a, b, row, col) then Cell(g0, n, b, a) else Cell(g0, n, a, b))
  }

  /** One iteration of the inner loop: swapping `(row, col)` with `(col, row)`. */
  lemma TransposeStep<T>(g: seq<T>, g0: seq<T>, n: nat, row: nat, col: nat)
    requires |g| == n * n && |g0| == n * n && row < col < n
    requires TransposedUpTo(g, g0, n, row, col)
    ensures Idx(n, row, col) < n * n && Idx(n, col, row) < n * n
    ensures TransposedUpTo(Swap(g, Idx(n, row, col), Idx(n, col, row)), g0, n, row, col + 1)
  {
    var i, j := Idx(n, row, col), Idx(n, col, row);
    IdxBounds(n, row, col);
    IdxBounds(n, col, row);
    var g' := Swap(g, i, j);
    forall a: nat, b: nat | a < n && b < n
      ensures Cell(g', n, a, b) ==
        (if Swapped(a, b, row, col + 1) then Cell(g0, n, b, a) else Cell(g0, n, a, b))
    {
      var k := Idx(n, a, b);
      IdxBounds(n, a, b);
      if k == i {
        IdxInjective(n, a, b, row, col);
        assert Cell(g, n, col, row) == Cell(g0, n, col, row);
      } else if k == j {
        IdxInjective(n, a, b, col, row);
        assert Cell(g, n, row, col) == Cell(g0, n, row, col);
      } else {
        assert g'[k] == g[k];
        assert Cell(g, n, a, b) == g[k];
        if a == row && b == col {
          assert false;
        }
        if a == col && b == row {
          assert false;
        }
      }
    }
  }

  /** The swaps of one row, completed, are exactly the swaps before the next row. */
  lemma TransposeNextRow<T>(g: seq<T>, g0: seq<T>, n: nat, row: nat)
    requires |g| == n * n && |g0| == n * n && row < n
    requires TransposedUpTo(g, g0, n, row, n)
    ensures TransposedUpTo(g, g0, n, row + 1, row + 2)
  {
    forall a: nat, b: nat | a < n && b < n
      ensures Swapped(a, b, row, n) == Swapped(a, b, row + 1, row + 2)
    {
    }
  }

  /** Once every row is done, the grid is the transpose of the original. */
  lemma TransposeDone<T>(g: seq<T>, g0: seq<T>, n: nat)
    requires |g| == n * n && |g0| == n * n
    requires TransposedUpTo(g, g0, n, n, n + 1)
    ensures g == Transposed(g0, n)
  {
    var t := Transposed(g0, n);
    forall k | 0 <= k < n * n
      ensures g[k] == t[k]
    {
      IdxDecompose(n, k);
      var a, b := k / n, k % n;
      TransposedAt(g0, n, a, b);
      assert Cell(g, n, a, b) == g[k];
    }
  }

  // ------------------------------------------------------------ row_cmp

  /** `Board::row_cmp`: identical rows are Equal; otherwise order by the
      number of O's, then of X's, then lexicographically. */
  function RowCmp(l: seq<Piece>, r: seq<Piece>): Ordering
  {
    if l == r then Equal
    else match CompareNat(Count(l, O), Count(r, O))
      case Less => Less
      case Greater => Greater
      case Equal =>
        match CompareNat(Count(l, X), Count(r, X))
        case Less => Less
        case Greater => Greater
        case Equal => CompareSeq(l, r)
  }

  lemma RowCmpEqual(l: seq<Piece>, r: seq<Piece>)
    ensures RowCmp(l, r) == Equal <==> l == r
  {
    CompareSeqEqual(l, r);
  }

  lemma RowCmpReverse(l: seq<Piece>, r: seq<Piece>)
    ensures RowCmp(r, l) == RowCmp(l, r).Reverse()
  {
    CompareSeqReverse(l, r);
  }

  lemma RowCmpTransitive(a: seq<Piece>, b: seq<Piece>, c: seq<Piece>)
    requires RowCmp(a, b) == Less && RowCmp(b, c) == Less
    ensures RowCmp(a, c) == Less
  {
    RowCmpReverse(a, b);
    RowCmpReverse(b, c);
    CompareSeqEqual(a, c);
    if Count(a, O) == Count(c, O) && Count(a, X) == Count(c, X) && a != c {
      CompareSeqTransitive(a, b, c);
    }
  }

  /** Rows in non-decreasing `row_cmp` order. */
  predicate RowLe(l: seq<Piece>, r: seq<Piece>)
  {
    RowCmp(l, r) != Greater
  }

  lemma RowLeTotal()
    ensures Total(RowLe)
  {
    forall a, b ensures RowLe(a, b) || RowLe(b, a) {
      RowCmpReverse(a, b);
    }
  }

  /** `rows.sort_unstable_by(Self::row_cmp)`. */
  function SortRows(rows: seq<seq<Piece>>): seq<seq<Piece>>
  {
    InsertionSort(rows, RowLe)
  }

  /** Sorting the rows of a square grid by any order keeps its size and
      its cells. */
  lemma SortedChunksShape<T>(g: seq<T>, n: nat, le: (seq<T>, seq<T>) -> bool)
    requires n > 0 && |g| == n * n
    ensures |Flatten(InsertionSort(Chunks(g, n), le))| == n * n
    ensures multiset(Flatten(InsertionSort(Chunks(g, n), le))) == multiset(g)
  {
    var rows := Chunks(g, n);
    var sorted := InsertionSort(rows, le);
    ChunksOfSquare(g, n, n);
    forall i | 0 <= i < |sorted| ensures |sorted[i]| == n {
      assert sorted[i] in multiset(rows);
    }
    FlattenUniformLength(sorted, n);
    FlattenPermutation(sorted, rows);
  }

  /** Sorting the rows of a square grid keeps its size and its pieces, and
      leaves the rows in `row_cmp` order. */
  lemma SortRowsOfGrid(g: seq<Piece>, n: nat)
    requires n > 0 && |g| == n * n
    ensures |Flatten(SortRows(Chunks(g, n)))| == n * n
    ensures multiset(Flatten(SortRows(Chunks(g, n)))) == multiset(g)
    ensures Sorted(SortRows(Chunks(g, n)), RowLe)
  {
    SortedChunksShape(g, n, RowLe);
    RowLeTotal();
    InsertionSortSorted(Chunks(g, n), RowLe);
  }

  /** Sorting the rows keeps the grid square. */
  lemma SortRowsLength(g: seq<Piece>, n: nat)
    requires n > 0 && |g| == n * n
    ensures |Flatten(SortRows(Chunks(g, n)))| == n * n
  {
    SortedChunksShape(g, n, RowLe);
  }

  // --------------------------------------------------------- standardize

  /** The grid with its rows sorted by `row_cmp`. */
  function RowsSorted(g: seq<Piece>, n: nat): (s: seq<Piece>)
    requires n > 0 && |g| == n * n
    ensures |s| == n * n
  {
    SortRowsLength(g, n);
    Flatten(SortRows(Chunks(g, n)))
  }

  /** The smaller of the grid and its transpose. */
  function Oriented(g: seq<Piece>, n: nat): (s: seq<Piece>)
    requires |g| == n * n
    ensures |s| == n * n
  {
    var t := Transposed(g, n);
    if CompareSeq(t, g) == Less then t else g
  }

  /** `Board::standardize` stage by stage: stage 1 sorts the rows, stage 2
      transposes and sorts the rows again, stage 3 keeps the smaller of the
      grid and its transpose. */
  function Stages(g: seq<Piece>, n: nat, k: nat): (s: seq<Piece>)
    requires n > 0 && |g| == n * n && k <= 3
    ensures |s| == n * n
    decreases k
  {
    if k == 0 then g
    else
      var h := Stages(g, n, k - 1);
      if k == 1 then RowsSorted(h, n)
      else if k == 2 then RowsSorted(Transposed(h, n), n)
      else Oriented(h, n)
  }

  /** The grid after one `Board::standardize`: all three stages. */
  function Standardized(g: seq<Piece>, n: nat): (s: seq<Piece>)
    requires n > 0 && |g| == n * n
    ensures |s| == n * n
  {
    Stages(g, n, 3)
  }

  /** Every stage only moves cells around. */
  lemma {:induction false} StagesPermutation(g: seq<Piece>, n: nat, k: nat)
    requires n > 0 && |g| == n * n && k <= 3
    ensures multiset(Stages(g, n, k)) == multiset(g)
  {
    if k > 0 {
      StagesPermutation(g, n, k - 1);
      var h := Stages(g, n, k - 1);
      if k == 1 {
        SortRowsOfGrid(h, n);
      } else if k == 2 {
        TransposedPermutation(h, n);
        SortRowsOfGrid(Transposed(h, n), n);
      } else {
        TransposedPermutation(h, n);
      }
    }
  }

  /** Standardizing only moves cells around. */
  lemma StandardizedPermutation(g: seq<Piece>, n: nat)
    requires n > 0 && |g| == n * n
    ensures multiset(Standardized(g, n)) == multiset(g)
  {
    StagesPermutation(g, n, 3);
  }

  /** After `standardize` the grid is never greater than its own transpose. */
  lemma StandardizedNotAboveTranspose(g: seq<Piece>, n: nat)
    requires n > 0 && |g| == n * n
    ensures SeqLe(Standardized(g, n), Transposed(Standardized(g, n), n))
  {
    var h := Stages(g, n, 2);
    assert Standardized(g, n) == Oriented(h, n);
    TransposedInvolution(h, n);
    CompareSeqReverse(Transposed(h, n), h);
  }

  /** `Board::is_standard`: rows in `row_cmp` order, grid no greater than its
      transpose, and the transpose's rows in `row_cmp` order too. */
  predicate IsStandard(g: seq<Piece>, n: nat)
    requires n > 0 && |g| == n * n
  {
    && Sorted(Chunks(g, n), RowLe)
    && SeqLe(g, Transposed(g, n))
    && Sorted(Chunks(Transposed(g, n), n), RowLe)
  }

  /** `fully_standardize` on the grid: standardize until standard, for at
      most `fuel` rounds. Only cells move; a standard grid is kept as it is. */
  function Canonical(g: seq<Piece>, n: nat, fuel: nat): (c: seq<Piece>)
    requires n > 0 && |g| == n * n
    ensures |c| == n * n && multiset(c) == multiset(g)
    ensures IsStandard(g, n) ==> c == g
    decreases fuel
  {
    if IsStandard(g, n) || fuel == 0 then g
    else
      StandardizedPermutation(g, n);
      Canonical(Standardized(g, n), n, OneFewer(fuel))
  }

  /** The round count less one: named, so that a loop that counts rounds
      down and the unfolding of `Canonical` speak of the same term. */
  function OneFewer(k: nat): (r: nat)
    requires k > 0
    ensures r + 1 == k
  {
    k - 1
  }

  /** A grid that is not standard, with rounds left, goes the way of its
      standardized grid with one round fewer. */
  lemma CanonicalUnfold(g: seq<Piece>, n: nat, fuel: nat)
    requires n > 0 && |g| == n * n && !IsStandard(g, n) && fuel > 0
    ensures Canonical(g, n, fuel) == Canonical(Standardized(g, n), n, OneFewer(fuel))
  {
  }
}
