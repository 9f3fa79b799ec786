/** Cell values, coordinates and the orderings Rust derives for them
    (`src/space.rs`, and the older `src/piece.rs`). */
module Pieces {

  /** `std::cmp::Ordering`. */
  datatype Ordering = Less | Equal | Greater
  {
    /** `Ordering::reverse`: what comparing the other way round gives. */
    function Reverse(): Ordering
    {
      match this
      case Less => Greater
      case Equal => Equal
      case Greater => Less
    }
  }

  /** `usize::cmp`. */
  function CompareNat(a: nat, b: nat): (r: Ordering)
    ensures r == Less <==> a < b
    ensures r == Equal <==> a == b
    ensures r == Greater <==> a > b
  {
    if a < b then Less else if a == b then Equal else Greater
  }

  /** A cell: one of the two marks, or nothing. */
  datatype Piece = X | O | Empty

  /** `Piece::inverse`: swaps the two marks, keeps `Empty`. */
  function Inverse(p: Piece): (q: Piece)
    ensures q == Empty <==> p == Empty
    ensures p != Empty ==> q != p
  {
    match p
    case X => O
    case O => X
    case Empty => Empty
  }

  lemma InverseInvolution(p: Piece)
    ensures Inverse(Inverse(p)) == p
  {
  }

  /** Position in the declaration `X, O, Empty`, which the derived order follows. */
  function Rank(p: Piece): nat
  {
    match p
    case X => 0
    case O => 1
    case Empty => 2
  }

  /** The derived `Ord` of `Piece`: `X < O < Empty`. */
  function ComparePieces(a: Piece, b: Piece): (r: Ordering)
    ensures r == Equal <==> a == b
    ensures r == Less <==> (a == X && b != X) || (a == O && b == Empty)
    ensures r == Greater <==> (b == X && a != X) || (b == O && a == Empty)
  {
    CompareNat(Rank(a), Rank(b))
  }

  /** The derived `Ord` of `Vec<Piece>`: lexicographic, a proper prefix first. */
  function CompareSeq(a: seq<Piece>, b: seq<Piece>): Ordering
  {
    if a == [] then (if b == [] then Equal else Less)
    else if b == [] then Greater
    else match ComparePieces(a[0], b[0])
      case Equal => CompareSeq(a[1..], b[1..])
      case Less => Less
      case Greater => Greater
  }

  predicate SeqLe(a: seq<Piece>, b: seq<Piece>)
  {
    CompareSeq(a, b) != Greater
  }

  lemma {:induction false} CompareSeqEqual(a: seq<Piece>, b: seq<Piece>)
    ensures CompareSeq(a, b) == Equal <==> a == b
    decreases |a|
  {
    if a != [] && b != [] {
      CompareSeqEqual(a[1..], b[1..]);
      if a[0] == b[0] && a[1..] == b[1..] {
        assert a == [a[0]] + a[1..] && b == [b[0]] + b[1..];
      }
    }
  }

  lemma {:induction false} CompareSeqReverse(a: seq<Piece>, b: seq<Piece>)
    ensures CompareSeq(b, a) == CompareSeq(a, b).Reverse()
    decreases |a|
  {
    if a != [] && b != [] {
      CompareSeqReverse(a[1..], b[1..]);
    }
  }

  lemma {:induction false} CompareSeqTransitive(a: seq<Piece>, b: seq<Piece>, c: seq<Piece>)
    requires CompareSeq(a, b) == Less && CompareSeq(b, c) == Less
    ensures CompareSeq(a, c) == Less
    decreases |a|
  {
    if a != [] && b != [] && c != [] && a[0] == b[0] && b[0] == c[0] {
      CompareSeqTransitive(a[1..], b[1..], c[1..]);
    }
  }

  /** `Coord { row, col }`. */
  datatype Coord = Coord(row: nat, col: nat)

  /** The derived `Ord` of `Coord`: row first, then column. */
  function CompareCoords(a: Coord, b: Coord): (r: Ordering)
    ensures r == Equal <==> a == b
    ensures r == Less <==> a.row < b.row || (a.row == b.row && a.col < b.col)
  {
    match CompareNat(a.row, b.row)
    case Equal => CompareNat(a.col, b.col)
    case Less => Less
    case Greater => Greater
  }

  /** A cell of a scrambled board: its piece and the coordinate it came from. */
  datatype Space = Space(piece: Piece, coord: Coord)

  /** The derived `Ord` of `Space`: piece first, then coordinate. */
  function CompareSpaces(a: Space, b: Space): (r: Ordering)
    ensures r == Equal <==> a == b
    ensures a.piece != b.piece ==> r == ComparePieces(a.piece, b.piece)
  {
    match ComparePieces(a.piece, b.piece)
    case Equal => CompareCoords(a.coord, b.coord)
    case Less => Less
    case Greater => Greater
  }

  lemma CompareSpacesReverse(a: Space, b: Space)
    ensures CompareSpaces(b, a) == CompareSpaces(a, b).Reverse()
  {
  }
}
