/** The bottom-up solver (`AiGroundUp`) and the board enumerator it is built
    on (`BoardIterator`), which walks the arrangements of a multiset of
    pieces by prefix shifts. */
module GroundUp {
  import opened Pieces
  import opened Seqs
  import Grids
  import Boards
  import Scrambled
  import opened Outcomes
  import opened Search

  // ------------------------------------------------------------ counting

  function Factorial(n: nat): (f: nat)
    ensures f >= 1
  {
    if n == 0 then 1 else n * Factorial(n - 1)
  }

  /** Binomial coefficients by Pascal's rule. */
  function Binomial(n: nat, k: nat): nat
  {
    if k == 0 then 1
    else if n == 0 then 0
    else Binomial(n - 1, k - 1) + Binomial(n - 1, k)
  }

  /** `num_integer::multinomial(&[x, o, e])`: the product of the binomials
      choosing each count among the running total. */
  function Multinomial(x: nat, o: nat, e: nat): nat
  {
    Binomial(x, x) * Binomial(x + o, o) * Binomial(x + o + e, e)
  }

  lemma {:induction false} BinomialBeyond(n: nat, k: nat)
    requires k > n
    ensures Binomial(n, k) == 0
  {
    if n > 0 {
      BinomialBeyond(n - 1, k - 1);
      BinomialBeyond(n - 1, k);
    }
  }

  /** The closed form: `C(n, k) * k! * (n - k)! == n!`. */
  lemma {:induction false} BinomialFactorials(n: nat, k: nat)
    requires k <= n
    ensures Binomial(n, k) * Factorial(k) * Factorial(n - k) == Factorial(n)
  {
    if k == 0 {
      assert Binomial(n, k) == 1;
    } else if k == n {
      BinomialFactorials(n - 1, k - 1);
      BinomialBeyond(n - 1, k);
      assert Binomial(n, k) == Binomial(n - 1, k - 1);
      assert Factorial(n) == n * Factorial(n - 1);
      ShiftFactor(Binomial(n - 1, k - 1), n, Factorial(n - 1), 1);
    } else {
      var m := n - 1;
      BinomialFactorials(m, k - 1);
      BinomialFactorials(m, k);
      var a, b := Binomial(m, k - 1), Binomial(m, k);
      assert Factorial(k) == k * Factorial(k - 1);
      assert Factorial(n - k) == (n - k) * Factorial(m - k);
      assert m - (k - 1) == n - k;
      ShiftFactor(a, k, Factorial(k - 1), Factorial(n - k));
      ShiftFactor2(b, Factorial(k), n - k, Factorial(m - k));
      assert Binomial(n, k) == a + b;
      SumFactors(a, b, Factorial(k), Factorial(n - k), k, n - k, Factorial(m));
      assert Factorial(n) == n * Factorial(m);
    }
  }

  lemma ShiftFactor(a: int, k: int, f: int, r: int)
    ensures a * (k * f) * r == k * (a * f * r)
  {
  }

  lemma ShiftFactor2(b: int, f: int, j: int, r: int)
    ensures b * f * (j * r) == j * (b * f * r)
  {
  }

  lemma SumFactors(a: int, b: int, f: int, r: int, k: int, j: int, m: int)
    requires a * f * r == k * m && b * f * r == j * m
    ensures (a + b) * f * r == (k + j) * m
  {
  }

  /** The multinomial counts the arrangements of the pieces:
      `multinomial(x, o, e) * x! * o! * e! == (x + o + e)!`. */
  lemma MultinomialFactorials(x: nat, o: nat, e: nat)
    ensures Multinomial(x, o, e) * Factorial(x) * Factorial(o) * Factorial(e) == Factorial(x + o + e)
  {
    BinomialFactorials(x, x);
    BinomialFactorials(x + o, o);
    BinomialFactorials(x + o + e, e);
    assert Binomial(x, x) == 1 by {
      assert Binomial(x, x) * Factorial(x) * Factorial(0) == Factorial(x);
    }
    assert x + o - o == x && x + o + e - e == x + o;
    Regroup(Binomial(x + o, o), Binomial(x + o + e, e), Factorial(x), Factorial(o), Factorial(e),
            Factorial(x + o), Factorial(x + o + e));
  }

  lemma Regroup(bo: int, be: int, fx: int, fo: int, fe: int, fxo: int, fall: int)
    requires bo * fo * fx == fxo && be * fe * fxo == fall
    ensures 1 * bo * be * fx * fo * fe == fall
  {
    calc {
      1 * bo * be * fx * fo * fe;
      be * fe * (bo * fo * fx);
    }
  }

  /** Every multiset has at least one arrangement, so the iterator serves
      at least one board. */
  lemma MultinomialPositive(x: nat, o: nat, e: nat)
    ensures Multinomial(x, o, e) >= 1
  {
    MultinomialFactorials(x, o, e);
    NonzeroFactor(Multinomial(x, o, e), Factorial(x), Factorial(o), Factorial(e), Factorial(x + o + e));
  }

  lemma NonzeroFactor(m: nat, a: nat, b: nat, c: nat, f: nat)
    requires m * a * b * c == f && f >= 1
    ensures m >= 1
  {
  }

  // ------------------------------------------------------- prefix shifts

  /** `b < c` in the derived order `X < O < Empty`. */
  predicate Below(b: Piece, c: Piece)
  {
    ComparePieces(b, c) == Less
  }

  /** The first ascent of `v` at or after `from`: the least `i` with
      `v[i] < v[i + 1]` (the first window `(b, c)` with `b < c`). */
  function FirstAscent(v: seq<Piece>, from: nat): (r: Option<nat>)
    ensures r.Some? ==> from <= r.value && r.value + 1 < |v| && Below(v[r.value], v[r.value + 1])
    ensures r.Some? ==> forall j :: from <= j < r.value ==> !Below(v[j], v[j + 1])
    ensures r.None? ==> forall j :: from <= j && j + 1 < |v| ==> !Below(v[j], v[j + 1])
    decreases |v| - from
  {
    if from + 1 >= |v| then None
    else if Below(v[from], v[from + 1]) then Some(from)
    else FirstAscent(v, from + 1)
  }

  /** Where `permute` reinserts the front element `a` into the rest `v`:
      just after the first ascent `(b, c)` when `a > b`, one further on
      otherwise, and at the back when `v` has no ascent. */
  function ShiftPoint(a: Piece, v: seq<Piece>): (k: nat)
    ensures k <= |v|
  {
    match FirstAscent(v, 0)
    case None => |v|
    case Some(i) => if Below(v[i], a) then i + 1 else i + 2
  }

  /** `permute`: one step of Williams' prefix-shift order on multiset
      permutations. The front element moves to the shift point. */
  function Successor(v: seq<Piece>): (w: seq<Piece>)
    ensures |w| == |v|
  {
    if v == [] then []
    else
      var k := ShiftPoint(v[0], v[1..]);
      v[1..][..k] + [v[0]] + v[1..][k..]
  }

  /** The loop of `permute`: pop the front, scan the windows of the rest
      for the first ascent, and reinsert there (or push to the back). */
  method PrefixShift(v: seq<Piece>) returns (w: seq<Piece>)
    ensures w == Successor(v)
  {
    if |v| == 0 {
      return v;
    }
    var a := v[0];
    var rest := v[1..];
    var k := |rest|;
    var idx := 0;
    while idx + 1 < |rest|
      invariant FirstAscent(rest, idx) == FirstAscent(rest, 0)
    {
      if ComparePieces(rest[idx], rest[idx + 1]) == Less {
        k := if ComparePieces(a, rest[idx]) == Greater then idx + 1 else idx + 2;
        break;
      }
      idx := idx + 1;
    }
    assert k == ShiftPoint(a, rest);
    w := rest[..k] + [a] + rest[k..];
  }

  /** Each step is a prefix shift: the first element moves right to some
      position `k`, and everything else keeps its order. */
  lemma SuccessorIsPrefixShift(v: seq<Piece>)
    requires v != []
    ensures exists k :: 1 <= k <= |v| && Successor(v) == v[1..k] + [v[0]] + v[k..]
  {
    var k := ShiftPoint(v[0], v[1..]);
    assert v[1..][..k] == v[1..k + 1] && v[1..][k..] == v[k + 1..];
    assert Successor(v) == v[1..k + 1] + [v[0]] + v[k + 1..];
  }

  /** A step only moves pieces around: the multiset, and so every piece
      count, is kept. */
  lemma SuccessorPermutation(v: seq<Piece>)
    ensures multiset(Successor(v)) == multiset(v)
  {
    if v != [] {
      var k := ShiftPoint(v[0], v[1..]);
      var rest := v[1..];
      assert rest == rest[..k] + rest[k..];
      assert v == [v[0]] + rest;
    }
  }

  /** The six arrangements of one X, one O and one Empty, in the order
      `permute` visits them from `from_counts(1, 1, 1)`: six distinct
      boards, and the seventh step is back at the start. */
  lemma OneOfEachCycle()
    ensures
      var v0 := [X, O, Empty];
      var v1 := Successor(v0);
      var v2 := Successor(v1);
      var v3 := Successor(v2);
      var v4 := Successor(v3);
      var v5 := Successor(v4);
      && Successor(v5) == v0
      && Distinct([v0, v1, v2, v3, v4, v5])
      && Multinomial(1, 1, 1) == 6
  {
    OneOfEachSteps();
  }

  /** The six steps of the cycle, one by one. */
  lemma OneOfEachSteps()
    ensures Successor([X, O, Empty]) == [O, Empty, X]
    ensures Successor([O, Empty, X]) == [Empty, X, O]
    ensures Successor([Empty, X, O]) == [X, Empty, O]
    ensures Successor([X, Empty, O]) == [Empty, O, X]
    ensures Successor([Empty, O, X]) == [O, X, Empty]
    ensures Successor([O, X, Empty]) == [X, O, Empty]
  {
    assert ShiftPoint(X, [O, Empty]) == 2;
    assert ShiftPoint(O, [Empty, X]) == 2;
    assert ShiftPoint(Empty, [X, O]) == 1;
    assert ShiftPoint(X, [Empty, O]) == 2;
    assert ShiftPoint(Empty, [O, X]) == 2;
    assert ShiftPoint(O, [X, Empty]) == 1;
  }

  /** A sequence of `k` copies of `p`. */
  function Repeat(p: Piece, k: nat): (r: seq<Piece>)
    ensures |r| == k && forall i :: 0 <= i < k ==> r[i] == p
  {
    if k == 0 then [] else Repeat(p, k - 1) + [p]
  }

  lemma {:induction false} RepeatCount(p: Piece, k: nat, q: Piece)
    ensures Grids.Count(Repeat(p, k), q) == if p == q then k else 0
  {
    if k > 0 {
      RepeatCount(p, k - 1, q);
      assert multiset(Repeat(p, k)) == multiset(Repeat(p, k - 1)) + multiset{p};
    }
  }

  // -------------------------------------------------------- BoardIterator

  /** `BoardIterator`: serves `len` boards, the arrangements reached from
      the starting vector by successive prefix shifts. */
  class BoardIterator {
    var currentVec: seq<Piece>
    var len: nat
    var boardsServed: nat
    /** The piece counts every served board has. */
    ghost const countX: nat
    ghost const countO: nat
    ghost const countEmpty: nat

    ghost predicate Valid()
      reads this
    {
      && boardsServed <= len
      && |currentVec| == countX + countO + countEmpty
      && Grids.Count(currentVec, X) == countX
      && Grids.Count(currentVec, O) == countO
      && Grids.Count(currentVec, Empty) == countEmpty
    }

    /** `from_counts`: the X's, then the O's, then the Empties (so the
        vector is in nondecreasing order), and `len` the multinomial of
        the counts. */
    constructor FromCounts(cx: nat, co: nat, ce: nat)
      ensures Valid() && countX == cx && countO == co && countEmpty == ce
      ensures currentVec == Repeat(X, cx) + Repeat(O, co) + Repeat(Empty, ce)
      ensures len == Multinomial(cx, co, ce) && len >= 1 && boardsServed == 0
    {
      currentVec := Repeat(X, cx) + Repeat(O, co) + Repeat(Empty, ce);
      len := Multinomial(cx, co, ce);
      boardsServed := 0;
      countX, countO, countEmpty := cx, co, ce;
      new;
      MultinomialPositive(cx, co, ce);
      RepeatCount(X, cx, X); RepeatCount(O, co, X); RepeatCount(Empty, ce, X);
      RepeatCount(X, cx, O); RepeatCount(O, co, O); RepeatCount(Empty, ce, O);
      RepeatCount(X, cx, Empty); RepeatCount(O, co, Empty); RepeatCount(Empty, ce, Empty);
    }

    /** `permute`: one prefix shift of the current vector, which keeps
        every piece count. */
    method Permute()
      requires Valid()
      modifies this
      ensures Valid() && len == old(len) && boardsServed == old(boardsServed)
      ensures currentVec == Successor(old(currentVec))
    {
      var w := PrefixShift(currentVec);
      SuccessorPermutation(currentVec);
      currentVec := w;
    }

    /** `next`: after `len` boards, None and nothing changes; before that,
        the current vector, counted, then one prefix shift. */
    method Next() returns (b: Option<seq<Piece>>)
      requires Valid()
      modifies this
      ensures Valid() && len == old(len)
      ensures old(boardsServed) >= len ==> b.None? && currentVec == old(currentVec) && boardsServed == old(boardsServed)
      ensures old(boardsServed) < len ==>
        && b == Some(old(currentVec))
        && boardsServed == old(boardsServed) + 1
        && currentVec == Successor(old(currentVec))
    {
      if boardsServed >= len {
        return None;
      }
      b := Some(currentVec);
      boardsServed := boardsServed + 1;
      Permute();
    }
  }

  /** `from_move_number`: the boards of a game `num_empty` cells from the
      end; the starting piece has made the extra move when the number of
      filled cells is odd. */
  method FromMoveNumber(boardSize: nat, startingPiece: Piece, numEmpty: nat) returns (it: BoardIterator)
    requires startingPiece != Empty && numEmpty <= boardSize * boardSize
    ensures fresh(it) && it.Valid() && it.boardsServed == 0 && it.len >= 1
    ensures it.countX + it.countO + it.countEmpty == boardSize * boardSize && it.countEmpty == numEmpty
    ensures
      var filled := boardSize * boardSize - numEmpty;
      (if startingPiece == X then it.countX else it.countO) == (filled + 1) / 2
      && (if startingPiece == X then it.countO else it.countX) == filled / 2
  {
    var counts := FilledCounts(startingPiece, boardSize * boardSize - numEmpty);
    it := new BoardIterator.FromCounts(counts.0, counts.1, numEmpty);
  }

  /** The X and O counts after `filled` moves when `startingPiece` moved
      first: the starting piece has the extra move on odd counts. */
  function FilledCounts(startingPiece: Piece, filled: nat): (r: (nat, nat))
    ensures r.0 + r.1 == filled
    ensures (if startingPiece == X then r.0 else r.1) == (filled + 1) / 2
    ensures (if startingPiece == X then r.1 else r.0) == filled / 2
  {
    var more, fewer := (filled + 1) / 2, filled / 2;
    if startingPiece == X then (more, fewer) else (fewer, more)
  }

  /** `BoardIterator::new`: the full boards. */
  method NewIterator(boardSize: nat, startingPiece: Piece) returns (it: BoardIterator)
    requires startingPiece != Empty
    ensures fresh(it) && it.Valid() && it.boardsServed == 0 && it.len >= 1
    ensures it.countX + it.countO == boardSize * boardSize && it.countEmpty == 0
  {
    it := FromMoveNumber(boardSize, startingPiece, 0);
  }

  // ------------------------------------------------------------ strategy

  /** The ground-up `MoveAnalysis`: an evaluation and the moves attaining it. */
  datatype Analysis = Analysis(evaluation: MoveValue, moveOptions: seq<Coord>)

  /** `current_piece` while `build_strategy` works on the boards with
      `numEmpty` Empty cells: the piece that made the last move. It starts
      as the engine's piece on odd sizes and as the other piece on even
      sizes, and flips once per layer. */
  function Mover(n: nat, piece: Piece, numEmpty: nat): (p: Piece)
    ensures numEmpty == 0 ==> p == if n % 2 == 0 then Inverse(piece) else piece
  {
    if (n + numEmpty) % 2 == 1 then piece else Inverse(piece)
  }

  /** Each new layer flips the mover. */
  lemma MoverFlips(n: nat, piece: Piece, numEmpty: nat)
    requires piece != Empty
    ensures Mover(n, piece, numEmpty + 1) == Inverse(Mover(n, piece, numEmpty))
  {
    InverseInvolution(piece);
  }

  lemma SquareParity(n: nat)
    ensures (n * n) % 2 == n % 2
  {
    var q, r := n / 2, n % 2;
    assert n == 2 * q + r;
    var x := 2 * q * q + 2 * q * r;
    assert n * n == 2 * x + r * r;
    assert r * r == r;
  }

  /** Two numbers of the same parity, less and plus a third. */
  lemma ParityShift(s: int, n: int, e: int)
    requires s % 2 == n % 2
    ensures (s - e) % 2 == 1 <==> (n + e) % 2 == 1
  {
  }

  /** The mover is the engine's piece exactly when the engine, which the
      iterator lets start, has made the last of the filled cells' moves. */
  lemma MoverMadeLastMove(n: nat, piece: Piece, numEmpty: nat)
    requires piece != Empty && numEmpty <= n * n
    ensures Mover(n, piece, numEmpty) == piece <==> (n * n - numEmpty) % 2 == 1
  {
    SquareParity(n);
    ParityShift(n * n, n, numEmpty);
  }

  /** The key looked up for move `c` on the standard board `g`: the
      opponent of `current` placed at `c`, then fully standardized (at most
      `fuel` rounds). */
  function GrownKey(g: seq<Piece>, n: nat, current: Piece, c: Coord, fuel: nat): (k: seq<Piece>)
    requires n > 0 && |g| == n * n && c in EmptyCells(g, n)
    ensures |k| == n * n
  {
    EmptyCellsMembers(g, n, c);
    Grids.PieceAtBounds(g, n, c);
    Grids.Canonical(Grids.Placed(g, n, Inverse(current), c).value, n, fuel)
  }

  /** A child key has one Empty cell fewer than the board it grows from. */
  lemma GrownKeyCount(g: seq<Piece>, n: nat, current: Piece, c: Coord, fuel: nat)
    requires n > 0 && |g| == n * n && c in EmptyCells(g, n) && current != Empty
    ensures Grids.Count(GrownKey(g, n, current, c, fuel), Empty) + 1 == Grids.Count(g, Empty)
  {
    EmptyCellsMembers(g, n, c);
    Grids.PieceAtBounds(g, n, c);
    Grids.PlacedCount(g, n, Inverse(current), c);
  }

  /** The keys of the children of `g` for `moves`, in order. */
  function ChildKeys(g: seq<Piece>, n: nat, current: Piece, moves: seq<Coord>, fuel: nat): (ks: seq<seq<Piece>>)
    requires n > 0 && |g| == n * n && forall c :: c in moves ==> c in EmptyCells(g, n)
    ensures |ks| == |moves|
    ensures forall i {:trigger GrownKey(g, n, current, moves[i], fuel)} :: 0 <= i < |moves| ==> ks[i] == GrownKey(g, n, current, moves[i], fuel)
  {
    seq(|moves|, i requires 0 <= i < |moves| => GrownKey(g, n, current, moves[i], fuel))
  }

  /** The incremented evaluations stored for `keys`, or None when one of
      them is not stored (the `expect` that panics). */
  function ChildValues(keys: seq<seq<Piece>>, known: map<seq<Piece>, Analysis>): (r: Option<seq<MoveValue>>)
    ensures r.Some? <==> forall i :: 0 <= i < |keys| ==> keys[i] in known
    ensures r.Some? ==> |r.value| == |keys|
    ensures r.Some? ==> forall i :: 0 <= i < |keys| ==> r.value[i] == Increment(known[keys[i]].evaluation)
  {
    if keys == [] then Some([])
    else
      var init := keys[..|keys| - 1];
      var k := keys[|keys| - 1];
      assert forall i :: 0 <= i < |init| ==> init[i] == keys[i];
      match ChildValues(init, known)
      case None => None
      case Some(vs) => if k in known then Some(vs + [Increment(known[k].evaluation)]) else None
  }

  /** The record `build_strategy` computes for the standard board `g` when
      `current` made the last move, reading children from `known`: a win
      for `current` is final, a full board is a tie, and otherwise the
      children are summarized, by maximum when `current` is the engine's
      piece and by minimum otherwise. */
  function Evaluate(g: seq<Piece>, n: nat, piece: Piece, current: Piece,
                    known: map<seq<Piece>, Analysis>, fuel: nat): (r: Option<Analysis>)
    requires n > 0 && |g| == n * n
    ensures r.Some? ==> forall c :: c in r.value.moveOptions ==> c in EmptyCells(g, n)
    ensures r.Some? && r.value.moveOptions == [] ==> Grids.HasWin(g, n, current) || Grids.IsFull(g)
  {
    if Grids.HasWin(g, n, current) then
      Some(Analysis(if current == piece then Win(0) else Lose(0), []))
    else if Grids.IsFull(g) then
      Some(Analysis(Tie(0), []))
    else
      var moves := EmptyCells(g, n);
      match ChildValues(ChildKeys(g, n, current, moves, fuel), known)
      case None => None
      case Some(vs) =>
        EmptyCellsOfUnfull(g, n);
        var best := if current == piece then MaxValue(vs) else MinValue(vs);
        Some(Analysis(best, Attaining(moves, vs, best)))
  }

  /** The table is a fixed point of the dynamic program: every key is a
      standard board, and its record is what `build_strategy` computes for
      it from the table's own entries. */
  ghost predicate Solved(known: map<seq<Piece>, Analysis>, n: nat, piece: Piece, fuel: nat)
    requires n > 0
  {
    forall k {:trigger SolvedAt(known, n, piece, fuel, k)} :: k in known ==> SolvedAt(known, n, piece, fuel, k)
  }

  /** Reading one more key extends what `ChildValues` reads by that key's
      incremented evaluation. */
  lemma ChildValuesSnoc(keys: seq<seq<Piece>>, known: map<seq<Piece>, Analysis>, i: nat, values: seq<MoveValue>)
    requires i < |keys| && ChildValues(keys[..i], known) == Some(values) && keys[i] in known
    ensures ChildValues(keys[..i + 1], known) == Some(values + [Increment(known[keys[i]].evaluation)])
  {
    assert keys[..i + 1][..i] == keys[..i];
  }

  /** Storing a record under a key that is not among `keys` changes
      nothing that is read for them. */
  lemma {:induction false} ChildValuesFrame(keys: seq<seq<Piece>>, known: map<seq<Piece>, Analysis>, x: seq<Piece>, a: Analysis)
    requires x !in keys
    ensures ChildValues(keys, known[x := a]) == ChildValues(keys, known)
    decreases |keys|
  {
    if keys != [] {
      var init := keys[..|keys| - 1];
      assert x !in init by {
        assert forall i :: 0 <= i < |init| ==> init[i] == keys[i];
      }
      ChildValuesFrame(init, known, x, a);
    }
  }

  /** A board is never its own child: every child key has one Empty cell
      fewer. */
  lemma NotOwnChild(g: seq<Piece>, n: nat, current: Piece, fuel: nat)
    requires n > 0 && |g| == n * n && current != Empty
    ensures g !in ChildKeys(g, n, current, EmptyCells(g, n), fuel)
  {
    var moves := EmptyCells(g, n);
    var ks := ChildKeys(g, n, current, moves, fuel);
    if g in ks {
      var i :| 0 <= i < |ks| && ks[i] == g;
      GrownKeyCount(g, n, current, moves[i], fuel);
    }
  }

  /** Storing a record under `x` keeps the record computed for `g` when
      `x` is `g` itself, or when `g`'s children are all stored and `x` is
      not. */
  lemma EvaluateFrame(g: seq<Piece>, n: nat, piece: Piece, current: Piece,
                      known: map<seq<Piece>, Analysis>, fuel: nat, x: seq<Piece>, a: Analysis)
    requires n > 0 && |g| == n * n && current != Empty
    requires x == g || (x !in known && Evaluate(g, n, piece, current, known, fuel).Some?)
    ensures Evaluate(g, n, piece, current, known[x := a], fuel) == Evaluate(g, n, piece, current, known, fuel)
  {
    if !Grids.HasWin(g, n, current) && !Grids.IsFull(g) {
      var ks := ChildKeys(g, n, current, EmptyCells(g, n), fuel);
      if x == g {
        NotOwnChild(g, n, current, fuel);
      } else {
        assert x !in ks;
      }
      ChildValuesFrame(ks, known, x, a);
    }
  }

  /** The condition `Solved` places on the entry under `k`. */
  ghost predicate SolvedAt(known: map<seq<Piece>, Analysis>, n: nat, piece: Piece, fuel: nat, k: seq<Piece>)
    requires n > 0 && k in known
  {
    && |k| == n * n
    && Grids.IsStandard(k, n)
    && Evaluate(k, n, piece, Mover(n, piece, Grids.Count(k, Empty)), known, fuel) == Some(known[k])
  }

  /** Storing a new record computed from the table keeps each entry's
      condition, the new one's included. */
  lemma SolvedAtInsert(known: map<seq<Piece>, Analysis>, n: nat, piece: Piece, fuel: nat,
                       g: seq<Piece>, a: Analysis, k: seq<Piece>)
    requires n > 0 && piece != Empty && g !in known && |g| == n * n && Grids.IsStandard(g, n)
    requires Evaluate(g, n, piece, Mover(n, piece, Grids.Count(g, Empty)), known, fuel) == Some(a)
    requires k in known ==> SolvedAt(known, n, piece, fuel, k)
    requires k == g || k in known
    ensures SolvedAt(known[g := a], n, piece, fuel, k)
  {
    EvaluateFrame(k, n, piece, Mover(n, piece, Grids.Count(k, Empty)), known, fuel, g, a);
  }

  /** Storing a record computed from a solved table keeps it solved, and
      an entry already there is stored again unchanged. */
  lemma SolvedInsert(known: map<seq<Piece>, Analysis>, n: nat, piece: Piece, fuel: nat, g: seq<Piece>, a: Analysis)
    requires n > 0 && piece != Empty && Solved(known, n, piece, fuel)
    requires |g| == n * n && Grids.IsStandard(g, n)
    requires Evaluate(g, n, piece, Mover(n, piece, Grids.Count(g, Empty)), known, fuel) == Some(a)
    ensures Solved(known[g := a], n, piece, fuel)
    ensures g in known ==> known[g := a] == known
  {
    if g in known {
      assert SolvedAt(known, n, piece, fuel, g);
      assert known[g := a] == known;
    } else {
      var known' := known[g := a];
      forall k | k in known' ensures SolvedAt(known', n, piece, fuel, k) {
        SolvedAtInsert(known, n, piece, fuel, g, a, k);
      }
    }
  }

  /** The value the solver reads for move `c`: the stored child's
      evaluation, one ply further. */
  function ChildValue(g: seq<Piece>, n: nat, current: Piece, c: Coord,
                      known: map<seq<Piece>, Analysis>, fuel: nat): MoveValue
    requires n > 0 && |g| == n * n && c in EmptyCells(g, n)
    requires GrownKey(g, n, current, c, fuel) in known
  {
    Increment(known[GrownKey(g, n, current, c, fuel)].evaluation)
  }

  /** On a board that is neither won by `current` nor full, a record exists
      exactly when every child is stored. */
  lemma EvaluateDefined(g: seq<Piece>, n: nat, piece: Piece, current: Piece,
                        known: map<seq<Piece>, Analysis>, fuel: nat)
    requires n > 0 && |g| == n * n && !Grids.HasWin(g, n, current) && !Grids.IsFull(g)
    ensures Evaluate(g, n, piece, current, known, fuel).Some? <==>
      forall c :: c in EmptyCells(g, n) ==> GrownKey(g, n, current, c, fuel) in known
  {
    var moves := EmptyCells(g, n);
    var ks := ChildKeys(g, n, current, moves, fuel);
    assert Evaluate(g, n, piece, current, known, fuel).Some? <==> ChildValues(ks, known).Some?;
    if forall c :: c in moves ==> GrownKey(g, n, current, c, fuel) in known {
      forall i | 0 <= i < |ks| ensures ks[i] in known {
        assert moves[i] in moves;
      }
    } else {
      var c :| c in moves && GrownKey(g, n, current, c, fuel) !in known;
      var i := PositionOf(moves, c);
      assert ks[i] !in known;
    }
  }

  /** The record of an open board, once it exists: the best child value
      (a maximum when `current` is the engine's piece, a minimum otherwise)
      and the moves attaining it. */
  lemma EvaluateShape(g: seq<Piece>, n: nat, piece: Piece, current: Piece,
                      known: map<seq<Piece>, Analysis>, fuel: nat)
    requires n > 0 && |g| == n * n && !Grids.HasWin(g, n, current) && !Grids.IsFull(g)
    requires Evaluate(g, n, piece, current, known, fuel).Some?
    ensures
      var moves := EmptyCells(g, n);
      var vs := ChildValues(ChildKeys(g, n, current, moves, fuel), known);
      && vs.Some? && |vs.value| == |moves| > 0
      && var best := if current == piece then MaxValue(vs.value) else MinValue(vs.value);
         Evaluate(g, n, piece, current, known, fuel).value == Analysis(best, Attaining(moves, vs.value, best))
  {
    EmptyCellsOfUnfull(g, n);
  }

  /** The value read for the `i`th move is that move's child value. */
  lemma ChildValueAt(g: seq<Piece>, n: nat, current: Piece, known: map<seq<Piece>, Analysis>, fuel: nat,
                     vs: seq<MoveValue>, i: nat)
    requires n > 0 && |g| == n * n
    requires ChildValues(ChildKeys(g, n, current, EmptyCells(g, n), fuel), known) == Some(vs)
    requires i < |EmptyCells(g, n)|
    ensures EmptyCells(g, n)[i] in EmptyCells(g, n)
    ensures GrownKey(g, n, current, EmptyCells(g, n)[i], fuel) in known
    ensures vs[i] == ChildValue(g, n, current, EmptyCells(g, n)[i], known, fuel)
  {
    var moves := EmptyCells(g, n);
    assert moves[i] in moves;
  }

  /** The record of a board that is neither won by `current` nor full
      bounds every child value: from above when `current` is the engine's
      piece (a maximum), from below otherwise (a minimum). */
  lemma EvaluateBound(g: seq<Piece>, n: nat, piece: Piece, current: Piece,
                      known: map<seq<Piece>, Analysis>, fuel: nat, c: Coord)
    requires n > 0 && |g| == n * n && !Grids.HasWin(g, n, current) && !Grids.IsFull(g)
    requires Evaluate(g, n, piece, current, known, fuel).Some? && c in EmptyCells(g, n)
    ensures GrownKey(g, n, current, c, fuel) in known
    ensures
      var best := Evaluate(g, n, piece, current, known, fuel).value.evaluation;
      var v := ChildValue(g, n, current, c, known, fuel);
      if current == piece then Le(v, best) else Le(best, v)
  {
    var moves := EmptyCells(g, n);
    EvaluateShape(g, n, piece, current, known, fuel);
    var vs := ChildValues(ChildKeys(g, n, current, moves, fuel), known).value;
    var i := PositionOf(moves, c);
    ChildValueAt(g, n, current, known, fuel, vs, i);
  }

  /** ... and that bound is attained by some move. */
  lemma EvaluateAttained(g: seq<Piece>, n: nat, piece: Piece, current: Piece,
                         known: map<seq<Piece>, Analysis>, fuel: nat)
    requires n > 0 && |g| == n * n && !Grids.HasWin(g, n, current) && !Grids.IsFull(g)
    requires Evaluate(g, n, piece, current, known, fuel).Some?
    ensures exists c ::
      && c in EmptyCells(g, n) && GrownKey(g, n, current, c, fuel) in known
      && ChildValue(g, n, current, c, known, fuel) == Evaluate(g, n, piece, current, known, fuel).value.evaluation
  {
    var moves := EmptyCells(g, n);
    EvaluateShape(g, n, piece, current, known, fuel);
    var vs := ChildValues(ChildKeys(g, n, current, moves, fuel), known).value;
    var best := if current == piece then MaxValue(vs) else MinValue(vs);
    var j :| 0 <= j < |vs| && vs[j] == best;
    ChildValueAt(g, n, current, known, fuel, vs, j);
  }

  /** The options of such a record are exactly the moves whose value equals
      its evaluation. */
  lemma EvaluateOptions(g: seq<Piece>, n: nat, piece: Piece, current: Piece,
                        known: map<seq<Piece>, Analysis>, fuel: nat, c: Coord)
    requires n > 0 && |g| == n * n && !Grids.HasWin(g, n, current) && !Grids.IsFull(g)
    requires Evaluate(g, n, piece, current, known, fuel).Some?
    ensures
      var r := Evaluate(g, n, piece, current, known, fuel).value;
      c in r.moveOptions <==>
        c in EmptyCells(g, n) && GrownKey(g, n, current, c, fuel) in known
        && ChildValue(g, n, current, c, known, fuel) == r.evaluation
  {
    var moves := EmptyCells(g, n);
    EvaluateShape(g, n, piece, current, known, fuel);
    var vs := ChildValues(ChildKeys(g, n, current, moves, fuel), known).value;
    var best := if current == piece then MaxValue(vs) else MinValue(vs);
    if c in Attaining(moves, vs, best) {
      var i := AttainingIndex(moves, vs, best, c);
      ChildValueAt(g, n, current, known, fuel, vs, i);
    }
    if c in moves {
      var i := PositionOf(moves, c);
      ChildValueAt(g, n, current, known, fuel, vs, i);
    }
  }

  /** Writing a piece into one space of a scrambled grid changes its bare
      grid as `place` changes a board. */
  lemma BarePlaced(g: seq<Space>, n: nat, p: Piece, c: Coord)
    requires |g| == n * n && c.row < n && c.col < n
    requires Grids.Cell(Scrambled.Bare(g), n, c.row, c.col) == Empty
    ensures Grids.Placed(Scrambled.Bare(g), n, p, c).Ok?
    ensures
      var s := Grids.Cell(g, n, c.row, c.col);
      Scrambled.Bare(Grids.SetCell(g, n, c.row, c.col, Space(p, s.coord)))
        == Grids.Placed(Scrambled.Bare(g), n, p, c).value
  {
    Grids.PieceAtBounds(Scrambled.Bare(g), n, c);
  }

  /** A clone of `scrambled` with `p` placed at its Empty cell `c`. */
  method PlacedClone(scrambled: Scrambled.ScrambledBoard, p: Piece, c: Coord) returns (sb: Scrambled.ScrambledBoard)
    requires scrambled.Valid() && c in EmptyCells(Scrambled.Bare(scrambled.grid), scrambled.size)
    ensures fresh(sb) && sb.Valid() && sb.size == scrambled.size
    ensures Grids.Placed(Scrambled.Bare(scrambled.grid), scrambled.size, p, c).Ok?
    ensures sb.BareGrid() == Grids.Placed(Scrambled.Bare(scrambled.grid), scrambled.size, p, c).value
  {
    EmptyCellsMembers(Scrambled.Bare(scrambled.grid), scrambled.size, c);
    BarePlaced(scrambled.grid, scrambled.size, p, c);
    sb := new Scrambled.ScrambledBoard.Clone(scrambled);
    var placed := sb.Place(p, c);
    assert placed.Ok?;
  }

  /** Every entry of `m0` is in `m1` with the same record. */
  ghost predicate Extends(m0: map<seq<Piece>, Analysis>, m1: map<seq<Piece>, Analysis>)
  {
    forall k :: k in m0 ==> k in m1 && m1[k] == m0[k]
  }

  /** `AiGroundUp`: a table of analyses for standard boards, built bottom
      up from the full boards. */
  class AiGroundUp {
    const size: nat
    const piece: Piece
    /** The rounds each `fully_standardize` may take. */
    const rounds: nat
    var knownBoards: map<seq<Piece>, Analysis>

    ghost predicate Valid()
      reads this
    {
      size > 0 && piece != Empty && Solved(knownBoards, size, piece, rounds)
    }

    /** `AiGroundUp::new`: an empty table. */
    constructor (size: nat, piece: Piece, rounds: nat)
      requires size > 0 && piece != Empty
      ensures Valid() && this.size == size && this.piece == piece && this.rounds == rounds
      ensures knownBoards == map[]
    {
      this.size := size;
      this.piece := piece;
      this.rounds := rounds;
      knownBoards := map[];
    }

    /** The loop body's child construction: clone the scrambled board,
        place the opponent of `current` at `c`, fully standardize, and read
        the bare grid back as a board. */
    method ChildKey(scrambled: Scrambled.ScrambledBoard, current: Piece, c: Coord) returns (key: seq<Piece>)
      requires size > 0 && scrambled.Valid() && scrambled.size == size
      requires c in EmptyCells(Scrambled.Bare(scrambled.grid), size)
      ensures key == GrownKey(Scrambled.Bare(scrambled.grid), size, current, c, rounds)
    {
      var sb := PlacedClone(scrambled, Inverse(current), c);
      ghost var grown := Grids.Placed(Scrambled.Bare(scrambled.grid), size, Inverse(current), c).value;
      var done := sb.FullyStandardize(rounds);
      var k := sb.ToBoard();
      key := k.grid;
      assert key == Grids.Canonical(grown, size, rounds);
    }

    /** The key of the child for the `i`-th move. */
    method MoveKey(scrambled: Scrambled.ScrambledBoard, current: Piece, moves: seq<Coord>, i: nat) returns (key: seq<Piece>)
      requires size > 0 && scrambled.Valid() && scrambled.size == size
      requires forall c :: c in moves ==> c in EmptyCells(Scrambled.Bare(scrambled.grid), size)
      requires i < |moves|
      ensures key == ChildKeys(Scrambled.Bare(scrambled.grid), size, current, moves, rounds)[i]
    {
      assert moves[i] in moves;
      key := ChildKey(scrambled, current, moves[i]);
    }

    /** One step of the lookup loop: the values so far extended by the
        `i`-th child's, or None when that child is not stored. */
    method ChildValueStep(scrambled: Scrambled.ScrambledBoard, current: Piece, moves: seq<Coord>, i: nat,
                          values: seq<MoveValue>) returns (next: Option<seq<MoveValue>>)
      requires size > 0 && scrambled.Valid() && scrambled.size == size
      requires forall c :: c in moves ==> c in EmptyCells(Scrambled.Bare(scrambled.grid), size)
      requires i < |moves|
      requires ChildValues(ChildKeys(Scrambled.Bare(scrambled.grid), size, current, moves, rounds)[..i], knownBoards) == Some(values)
      ensures next.None? ==> ChildValues(ChildKeys(Scrambled.Bare(scrambled.grid), size, current, moves, rounds), knownBoards).None?
      ensures next.Some? ==> ChildValues(ChildKeys(Scrambled.Bare(scrambled.grid), size, current, moves, rounds)[..i + 1], knownBoards) == next
    {
      ghost var keys := ChildKeys(Scrambled.Bare(scrambled.grid), size, current, moves, rounds);
      var key := MoveKey(scrambled, current, moves, i);
      if key !in knownBoards {
        return None;
      }
      ChildValuesSnoc(keys, knownBoards, i, values);
      next := Some(values + [Increment(knownBoards[key].evaluation)]);
    }

    /** The children's values for `moves`, looked up one by one; None at
        the first child that is not stored. */
    method ChildValuesOf(scrambled: Scrambled.ScrambledBoard, current: Piece, moves: seq<Coord>)
      returns (r: Option<seq<MoveValue>>)
      requires size > 0 && scrambled.Valid() && scrambled.size == size
      requires forall c :: c in moves ==> c in EmptyCells(Scrambled.Bare(scrambled.grid), size)
      ensures r == ChildValues(ChildKeys(Scrambled.Bare(scrambled.grid), size, current, moves, rounds), knownBoards)
    {
      ghost var keys := ChildKeys(Scrambled.Bare(scrambled.grid), size, current, moves, rounds);
      var values: seq<MoveValue> := [];
      var i := 0;
      while i < |moves|
        invariant i <= |moves| && ChildValues(keys[..i], knownBoards) == Some(values)
      {
        var next := ChildValueStep(scrambled, current, moves, i, values);
        if next.None? {
          return None;
        }
        values := next.value;
        i := i + 1;
      }
      assert keys[..i] == keys;
      r := Some(values);
    }

    /** The record the layer loop computes for the standard, unfull board
        `b` (whose scrambled twin is `scrambled`) when `current` made the
        last move; None where the source panics on a missing child. */
    method Evaluation(b: Boards.Board, scrambled: Scrambled.ScrambledBoard, current: Piece) returns (r: Option<Analysis>)
      requires size > 0 && b.Valid() && b.size == size && !Grids.IsFull(b.grid)
      requires scrambled.Valid() && scrambled.size == size && Scrambled.Bare(scrambled.grid) == b.grid
      ensures r == Evaluate(b.grid, size, piece, current, knownBoards, rounds)
    {
      if b.HasWin(current) {
        return Some(Analysis(if current == piece then Win(0) else Lose(0), []));
      }
      var moves := AvailableSpaces(b);
      var found := ChildValuesOf(scrambled, current, moves);
      if found.None? {
        return None;
      }
      var values := found.value;
      EmptyCellsOfUnfull(b.grid, size);
      var evaluation := if current == piece then MaxValue(values) else MinValue(values);
      r := Some(Analysis(evaluation, Attaining(moves, values, evaluation)));
    }

    /** `known_boards.insert` of a record computed from the table. */
    method Record(g: seq<Piece>, a: Analysis)
      requires Valid() && |g| == size * size && Grids.IsStandard(g, size)
      requires Evaluate(g, size, piece, Mover(size, piece, Grids.Count(g, Empty)), knownBoards, rounds) == Some(a)
      modifies this
      ensures Valid() && knownBoards == old(knownBoards)[g := a]
      ensures g in old(knownBoards) ==> knownBoards == old(knownBoards)
      ensures Extends(old(knownBoards), knownBoards)
    {
      SolvedInsert(knownBoards, size, piece, rounds, g, a);
      knownBoards := knownBoards[g := a];
    }

    /** The full-board loop's body for the vector `v`: a standard board is
        stored as a win or loss when `current` has a line, else as a tie,
        with no move options. */
    method RecordFull(v: seq<Piece>, current: Piece)
      requires Valid() && |v| == size * size && Grids.Count(v, Empty) == 0
      requires current == Mover(size, piece, 0)
      modifies this
      ensures Valid() && Extends(old(knownBoards), knownBoards)
      ensures Grids.IsStandard(v, size) ==> v in knownBoards
    {
      var b := new Boards.Board.FromGrid(size, v);
      var scrambled := new Scrambled.ScrambledBoard.FromBoard(b);
      Scrambled.IsStandardBare(scrambled.grid, size);
      if scrambled.IsStandard() {
        var evaluation := if b.HasWin(current) then (if current == piece then Win(0) else Lose(0)) else Tie(0);
        assert Grids.IsFull(v);
        Record(v, Analysis(evaluation, []));
      }
    }

    /** The layer loop's body for the vector `v`: a standard board is stored
        with the record computed from its children; false when a child is
        missing (the source's `expect` panics there). */
    method RecordUnfull(v: seq<Piece>, current: Piece) returns (ok: bool)
      requires Valid() && |v| == size * size && Grids.Count(v, Empty) >= 1
      requires current == Mover(size, piece, Grids.Count(v, Empty))
      modifies this
      ensures Valid() && Extends(old(knownBoards), knownBoards)
      ensures ok && Grids.IsStandard(v, size) ==> v in knownBoards
      ensures !ok ==> Grids.IsStandard(v, size) && Evaluate(v, size, piece, current, old(knownBoards), rounds).None?
    {
      var b := new Boards.Board.FromGrid(size, v);
      var scrambled := new Scrambled.ScrambledBoard.FromBoard(b);
      Scrambled.IsStandardBare(scrambled.grid, size);
      if scrambled.IsStandard() {
        assert Empty in multiset(v);
        var a := Evaluation(b, scrambled, current);
        if a.None? {
          return false;
        }
        Record(v, a.value);
      }
      ok := true;
    }

    /** The full-board loop of `build_strategy`: every board the iterator
        serves is offered to `RecordFull`. */
    method RecordFullBoards()
      requires Valid()
      modifies this
      ensures Valid() && Extends(old(knownBoards), knownBoards)
    {
      var current := if size % 2 == 0 then Inverse(piece) else piece;
      var it := NewIterator(size, piece);
      while true
        invariant Valid() && Extends(old(knownBoards), knownBoards)
        invariant fresh(it) && it.Valid() && it.countX + it.countO == size * size && it.countEmpty == 0
        decreases it.len - it.boardsServed
      {
        var next := it.Next();
        if next.None? {
          break;
        }
        RecordFull(next.value, current);
      }
    }

    /** One pass of the layer loop: every board with `numEmpty` Empty cells
        is offered to `RecordUnfull`; false at the first missing child. */
    method RecordLayer(numEmpty: nat, current: Piece) returns (ok: bool)
      requires Valid() && 1 <= numEmpty <= size * size && current == Mover(size, piece, numEmpty)
      modifies this
      ensures Valid() && Extends(old(knownBoards), knownBoards)
    {
      var it := FromMoveNumber(size, piece, numEmpty);
      while true
        invariant Valid() && Extends(old(knownBoards), knownBoards)
        invariant fresh(it) && it.Valid() && it.countX + it.countO + it.countEmpty == size * size
        invariant it.countEmpty == numEmpty
        decreases it.len - it.boardsServed
      {
        var next := it.Next();
        if next.None? {
          break;
        }
        ok := RecordUnfull(next.value, current);
        if !ok {
          return;
        }
      }
      ok := true;
    }

    /** `build_strategy`: the full boards, then the layers with 1, 2, ...
        Empty cells, the last mover flipping between layers. The table stays
        solved and keeps every entry it had; false where the source panics
        on a missing child. */
    method BuildStrategy() returns (ok: bool)
      requires Valid()
      modifies this
      ensures Valid() && Extends(old(knownBoards), knownBoards)
    {
      RecordFullBoards();
      var current := Mover(size, piece, 0);
      var numEmpty := 1;
      while numEmpty <= size * size
        invariant 1 <= numEmpty <= size * size + 1 && current == Mover(size, piece, numEmpty - 1)
        invariant Valid() && Extends(old(knownBoards), knownBoards)
      {
        MoverFlips(size, piece, numEmpty - 1);
        current := Inverse(current);
        ok := RecordLayer(numEmpty, current);
        if !ok {
          return;
        }
        numEmpty := numEmpty + 1;
      }
      ok := true;
    }

    /** `analyze`: the stored record, building the table first when the key
        is missing. A found record is the one computed for the key from the
        table; None where the source would rebuild forever or panic. */
    method Analyze(key: seq<Piece>) returns (r: Option<Analysis>)
      requires Valid()
      modifies this
      ensures Valid() && Extends(old(knownBoards), knownBoards)
      ensures key in old(knownBoards) ==> r == Some(old(knownBoards)[key]) && knownBoards == old(knownBoards)
      ensures r.Some? ==> key in knownBoards && r == Some(knownBoards[key])
      ensures r.Some? ==>
        && |key| == size * size && Grids.IsStandard(key, size)
        && r == Evaluate(key, size, piece, Mover(size, piece, Grids.Count(key, Empty)), knownBoards, rounds)
    {
      if key in knownBoards {
        assert SolvedAt(knownBoards, size, piece, rounds, key);
        return Some(knownBoards[key]);
      }
      var ok := BuildStrategy();
      if ok && key in knownBoards {
        assert SolvedAt(knownBoards, size, piece, rounds, key);
        r := Some(knownBoards[key]);
      } else {
        r := None;
      }
    }

    /** The lookup and random choice of `choose_move`: option `pick` of the
        key's record, an Empty cell of the key; None when there is no
        record or it offers no move. */
    method PickOption(key: seq<Piece>, pick: nat) returns (chosen: Option<Coord>)
      requires Valid()
      modifies this
      ensures Valid() && Extends(old(knownBoards), knownBoards)
      ensures key in old(knownBoards) ==> chosen == Choose(old(knownBoards)[key].moveOptions, pick)
      ensures chosen.Some? ==> key in knownBoards && chosen == Choose(knownBoards[key].moveOptions, pick)
      ensures chosen.Some? ==> |key| == size * size && chosen.value in EmptyCells(key, size)
    {
      var analysis := Analyze(key);
      if analysis.None? {
        return None;
      }
      chosen := Choose(analysis.value.moveOptions, pick);
    }

    /** `choose_move`: scramble the game board, invert it when asked for the
        other piece, standardize once, pick an option of the result and map
        it back through the coordinate its space carries. The move is an
        Empty cell of the game board. */
    method ChooseMove(pieceToPlay: Piece, game: Boards.Board, pick: nat)
      returns (m: Option<Coord>, ghost spaces: seq<Space>, chosen: Option<Coord>)
      requires Valid() && game.Valid() && game.size == size
      modifies this
      ensures Valid() && Extends(old(knownBoards), knownBoards)
      ensures Canonicalised(spaces, size, game.grid, pieceToPlay != piece)
      ensures Scrambled.Bare(spaces) in old(knownBoards) ==>
        chosen == Choose(old(knownBoards)[Scrambled.Bare(spaces)].moveOptions, pick)
      ensures chosen.Some? ==>
        && Scrambled.Bare(spaces) in knownBoards
        && chosen == Choose(knownBoards[Scrambled.Bare(spaces)].moveOptions, pick)
        && chosen.value.row < size && chosen.value.col < size
      ensures m == CarriedCoord(spaces, size, chosen)
      ensures m.Some? ==>
        && m.value.row < size && m.value.col < size
        && Grids.Cell(game.grid, size, m.value.row, m.value.col) == Empty
    {
      var inverted := pieceToPlay != piece;
      var scrambled := ScrambledFor(game, inverted);
      spaces := scrambled.grid;
      var key := scrambled.ToBoard();
      chosen := PickOption(key.grid, pick);
      if chosen.None? {
        return None, spaces, chosen;
      }
      var c := OriginalMove(scrambled, game, chosen.value, inverted);
      m := Some(c);
    }
  }
}
