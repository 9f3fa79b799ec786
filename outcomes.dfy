/** Outcome values and their order (`MoveValue` of `src/ai/ai.rs`, which the
    players share), the per-ply transitions the engines apply to a child's
    value, the summaries they take over the children, and
    `available_spaces`. */
module Outcomes {
  import opened Pieces
  import opened Seqs
  import Grids

  /** `MoveValue`: the outcome and the number of plies to it. */
  datatype MoveValue = Lose(n: nat) | Tie(n: nat) | Unknown(n: nat) | Win(n: nat)

  /** Variant position in `Lose < Tie < Unknown < Win`. */
  function Tier(v: MoveValue): nat
  {
    match v
    case Lose(_) => 0
    case Tie(_) => 1
    case Unknown(_) => 2
    case Win(_) => 3
  }

  /** `MoveValue::cmp`: across variants `Lose < Tie < Unknown < Win`; a
      later loss or tie is better, a sooner win or a sooner horizon is
      better. */
  function Cmp(a: MoveValue, b: MoveValue): Ordering
  {
    match a
    case Lose(v) => (match b case Lose(w) => CompareNat(v, w) case _ => Less)
    case Tie(v) =>
      (match b
       case Lose(_) => Greater
       case Tie(w) => CompareNat(v, w)
       case _ => Less)
    case Unknown(v) =>
      (match b
       case Win(_) => Less
       case Unknown(w) => CompareNat(w, v)
       case _ => Greater)
    case Win(v) => (match b case Win(w) => CompareNat(w, v) case _ => Greater)
  }

  /** Different variants compare by their tier alone. */
  lemma CmpAcrossVariants(a: MoveValue, b: MoveValue)
    requires Tier(a) != Tier(b)
    ensures Cmp(a, b) == CompareNat(Tier(a), Tier(b))
  {
  }

  /** Within a variant: losses and ties grow with `n`, unknowns and wins
      shrink with it. */
  lemma CmpWithinVariant(a: MoveValue, b: MoveValue)
    requires Tier(a) == Tier(b)
    ensures (a.Lose? || a.Tie?) ==> Cmp(a, b) == CompareNat(a.n, b.n)
    ensures (a.Unknown? || a.Win?) ==> Cmp(a, b) == CompareNat(b.n, a.n)
  {
  }

  /** `cmp` agrees with derived equality. */
  lemma CmpEqual(a: MoveValue, b: MoveValue)
    ensures Cmp(a, b) == Equal <==> a == b
  {
  }

  lemma CmpReverse(a: MoveValue, b: MoveValue)
    ensures Cmp(b, a) == Cmp(a, b).Reverse()
  {
  }

  lemma CmpTransitive(a: MoveValue, b: MoveValue, c: MoveValue)
    requires Cmp(a, b) != Greater && Cmp(b, c) != Greater
    ensures Cmp(a, c) != Greater
  {
  }

  /** `a <= b` under `cmp`. */
  predicate Le(a: MoveValue, b: MoveValue)
  {
    Cmp(a, b) != Greater
  }

  // ------------------------------------------------------- transitions

  /** A child's value seen from the parent in the negamax engines: the
      outcome flips sides and is one ply further away. */
  function Flip(v: MoveValue): (w: MoveValue)
    ensures w.n == v.n + 1
    ensures v.Lose? <==> w.Win?
    ensures v.Win? <==> w.Lose?
    ensures v.Tie? <==> w.Tie?
    ensures v.Unknown? <==> w.Unknown?
  {
    match v
    case Lose(n) => Win(n + 1)
    case Tie(n) => Tie(n + 1)
    case Unknown(n) => Unknown(n + 1)
    case Win(n) => Lose(n + 1)
  }

  /** On decided outcomes, flipping reverses the order: the opponent's
      best win is the player's worst loss. */
  lemma FlipReversesDecided(a: MoveValue, b: MoveValue)
    requires (a.Lose? || a.Win?) && (b.Lose? || b.Win?)
    ensures Cmp(Flip(a), Flip(b)) == Cmp(b, a)
  {
  }

  /** A child's value in the ground-up solver: same outcome, one ply further. */
  function Increment(v: MoveValue): (w: MoveValue)
    ensures w.n == v.n + 1 && Tier(w) == Tier(v)
  {
    match v
    case Lose(n) => Lose(n + 1)
    case Tie(n) => Tie(n + 1)
    case Unknown(n) => Unknown(n + 1)
    case Win(n) => Win(n + 1)
  }

  // --------------------------------------------------------- summaries

  /** `Iterator::max` over `cmp`. */
  function MaxValue(vs: seq<MoveValue>): (m: MoveValue)
    requires |vs| > 0
    ensures m in vs
    ensures forall i :: 0 <= i < |vs| ==> Le(vs[i], m)
  {
    if |vs| == 1 then vs[0]
    else
      var rest := MaxValue(vs[1..]);
      assert forall i :: 1 <= i < |vs| ==> vs[i] == vs[1..][i - 1];
      if Cmp(vs[0], rest) == Greater then
        CmpReverse(vs[0], rest);
        forall i | 1 <= i < |vs| ensures Le(vs[i], vs[0]) {
          CmpTransitive(vs[i], rest, vs[0]);
        }
        vs[0]
      else rest
  }

  /** `Iterator::min` over `cmp`. */
  function MinValue(vs: seq<MoveValue>): (m: MoveValue)
    requires |vs| > 0
    ensures m in vs
    ensures forall i :: 0 <= i < |vs| ==> Le(m, vs[i])
  {
    if |vs| == 1 then vs[0]
    else
      var rest := MinValue(vs[1..]);
      assert forall i :: 1 <= i < |vs| ==> vs[i] == vs[1..][i - 1];
      if Cmp(vs[0], rest) == Less then
        forall i | 1 <= i < |vs| ensures Le(vs[0], vs[i]) {
          CmpTransitive(vs[0], rest, vs[i]);
        }
        vs[0]
      else
        CmpReverse(vs[0], rest);
        rest
  }

  /** `Iterator::min` over depths. */
  function MinNat(ds: seq<nat>): (m: nat)
    requires |ds| > 0
    ensures m in ds
    ensures forall i :: 0 <= i < |ds| ==> m <= ds[i]
  {
    if |ds| == 1 then ds[0]
    else
      var rest := MinNat(ds[1..]);
      assert forall i :: 1 <= i < |ds| ==> ds[i] == ds[1..][i - 1];
      if ds[0] < rest then ds[0] else rest
  }

  /** The moves whose value equals `best`, in order (the `filter` step). */
  function Attaining(moves: seq<Coord>, values: seq<MoveValue>, best: MoveValue): (r: seq<Coord>)
    requires |moves| == |values|
    ensures |r| <= |moves|
    ensures forall c :: c in r ==> exists i :: 0 <= i < |moves| && moves[i] == c && values[i] == best
    ensures forall i :: 0 <= i < |moves| && values[i] == best ==> moves[i] in r
    ensures best in values ==> r != []
  {
    if moves == [] then []
    else
      var rest := Attaining(moves[1..], values[1..], best);
      assert forall i :: 1 <= i < |moves| ==> moves[i] == moves[1..][i - 1] && values[i] == values[1..][i - 1];
      if values[0] == best then [moves[0]] + rest else rest
  }

  /** A position at which a chosen move attains `best`. */
  lemma AttainingIndex(moves: seq<Coord>, values: seq<MoveValue>, best: MoveValue, c: Coord) returns (i: nat)
    requires |moves| == |values| && c in Attaining(moves, values, best)
    ensures i < |moves| && moves[i] == c && values[i] == best
  {
    i :| i < |moves| && moves[i] == c && values[i] == best;
  }

  /** `MoveAnalysis`. */
  datatype MoveAnalysis = MoveAnalysis(evaluation: MoveValue, moveOptions: seq<Coord>, depthUsed: nat)

  function Evaluations(children: seq<MoveAnalysis>): (r: seq<MoveValue>)
    ensures |r| == |children|
    ensures forall i :: 0 <= i < |children| ==> r[i] == children[i].evaluation
  {
    seq(|children|, i requires 0 <= i < |children| => children[i].evaluation)
  }

  function Depths(children: seq<MoveAnalysis>): (r: seq<nat>)
    ensures |r| == |children|
    ensures forall i :: 0 <= i < |children| ==> r[i] == children[i].depthUsed
  {
    seq(|children|, i requires 0 <= i < |children| => children[i].depthUsed)
  }

  /** The moves attaining a value are those whose child has it; when the
      value is one of the children's, there is at least one. */
  lemma AttainingChildren(moves: seq<Coord>, children: seq<MoveAnalysis>, best: MoveValue)
    requires |moves| == |children|
    ensures forall c :: c in Attaining(moves, Evaluations(children), best) <==>
      exists i :: 0 <= i < |moves| && moves[i] == c && children[i].evaluation == best
    ensures best in Evaluations(children) ==> Attaining(moves, Evaluations(children), best) != []
  {
  }

  /** What the negamax engines store for a position whose moves `moves`
      led to the (already flipped) child analyses `children`: the best
      value, exactly the moves attaining it, and one more than the
      shallowest child depth. */
  function Summarize(moves: seq<Coord>, children: seq<MoveAnalysis>): (a: MoveAnalysis)
    requires |moves| == |children| > 0
    ensures a.evaluation in Evaluations(children)
    ensures forall i :: 0 <= i < |children| ==> Le(children[i].evaluation, a.evaluation)
    ensures a.moveOptions != []
    ensures forall c :: c in a.moveOptions <==>
      exists i :: 0 <= i < |moves| && moves[i] == c && children[i].evaluation == a.evaluation
    ensures a.depthUsed == 1 + MinNat(Depths(children))
  {
    var best := MaxValue(Evaluations(children));
    AttainingChildren(moves, children, best);
    MoveAnalysis(best, Attaining(moves, Evaluations(children), best), 1 + MinNat(Depths(children)))
  }

  // ------------------------------------------------- available_spaces

  /** The Empty cells among the first `k` flat positions, in row-major order. */
  function EmptyCellsBefore(g: seq<Piece>, n: nat, k: nat): (r: seq<Coord>)
    requires |g| == n * n && k <= n * n
    decreases k
  {
    if k == 0 then []
    else
      SideOfCell(n, k - 1);
      EmptyCellsBefore(g, n, k - 1) + if g[k - 1] == Empty then [Coord((k - 1) / n, (k - 1) % n)] else []
  }

  /** A board with a cell has a positive side. */
  lemma SideOfCell(n: nat, k: nat)
    requires k < n * n
    ensures n > 0
  {
  }

  /** `available_spaces`: every Empty cell, in row-major order. */
  function EmptyCells(g: seq<Piece>, n: nat): seq<Coord>
    requires |g| == n * n
  {
    EmptyCellsBefore(g, n, n * n)
  }

  /** A coordinate is listed exactly when it is on the board, before
      position `k`, and Empty. */
  lemma {:induction false} EmptyCellsBeforeMembers(g: seq<Piece>, n: nat, k: nat, c: Coord)
    requires |g| == n * n && k <= n * n
    ensures c in EmptyCellsBefore(g, n, k) <==>
      c.row < n && c.col < n && Grids.Idx(n, c.row, c.col) < k && Grids.Cell(g, n, c.row, c.col) == Empty
    decreases k
  {
    if k > 0 {
      EmptyCellsBeforeMembers(g, n, k - 1, c);
      Grids.IdxDecompose(n, k - 1);
      if c.row < n && c.col < n {
        Grids.IdxBounds(n, c.row, c.col);
        if Grids.Idx(n, c.row, c.col) == k - 1 {
          Grids.IdxDivMod(n, c.row, c.col);
        }
      }
      if c == Coord((k - 1) / n, (k - 1) % n) {
        Grids.IdxBounds(n, c.row, c.col);
      }
    }
  }

  /** `available_spaces` lists exactly the Empty cells of the board. */
  lemma EmptyCellsMembers(g: seq<Piece>, n: nat, c: Coord)
    requires |g| == n * n
    ensures c in EmptyCells(g, n) <==> c.row < n && c.col < n && Grids.Cell(g, n, c.row, c.col) == Empty
  {
    EmptyCellsBeforeMembers(g, n, n * n, c);
    if c.row < n && c.col < n {
      Grids.IdxBounds(n, c.row, c.col);
    }
  }

  /** One entry per Empty cell. */
  lemma {:induction false} EmptyCellsBeforeCount(g: seq<Piece>, n: nat, k: nat)
    requires |g| == n * n && k <= n * n
    ensures |EmptyCellsBefore(g, n, k)| == Grids.Count(g[..k], Empty)
    decreases k
  {
    if k > 0 {
      EmptyCellsBeforeCount(g, n, k - 1);
      assert g[..k] == g[..k - 1] + [g[k - 1]];
    }
  }

  /** A board that is not full has an available space. */
  lemma EmptyCellsOfUnfull(g: seq<Piece>, n: nat)
    requires |g| == n * n && !Grids.IsFull(g)
    ensures EmptyCells(g, n) != []
  {
    EmptyCellsBeforeCount(g, n, n * n);
    assert g[..n * n] == g;
  }
}
