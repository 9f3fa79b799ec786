/** The validators of `src/user_input.rs`: the board-size and depth range
    checks, the two-character move syntax, the letter/digit parsing of a
    move, and the placement check on a copy of the board. */
module UserInput {
  import opened Pieces
  import Grids

  /** Why a validator refuses its input; each case carries what the
      source's message shows. */
  datatype Complaint =
    | SizeZero
    | SizeTooLarge(size: nat)
    | DepthZero
    | DepthTooLarge(maxMoves: nat)
    | BadMoveSyntax
    | RowOutOfBounds(rowChar: char)
    | ColOutOfBounds(colChar: char)
    | Occupied(colChar: char, rowChar: char)

  /** inquire's `Validation`. */
  datatype Validation = Valid | Invalid(complaint: Complaint)

  /** `BoardSizeValidator::validate`: sizes 1 to 9 are accepted. */
  function ValidateBoardSize(size: nat): (v: Validation)
    ensures v == Valid <==> 1 <= size <= 9
    ensures size == 0 ==> v == Invalid(SizeZero)
    ensures size > 9 ==> v == Invalid(SizeTooLarge(size))
  {
    if size == 0 then Invalid(SizeZero)
    else if size > 9 then Invalid(SizeTooLarge(size))
    else Valid
  }

  /** `DepthValidator::validate`: a depth from 1 up to the number of cells
      is accepted. */
  function ValidateDepth(boardSize: nat, depth: nat): (v: Validation)
    ensures v == Valid <==> 1 <= depth <= boardSize * boardSize
    ensures depth == 0 ==> v == Invalid(DepthZero)
    ensures depth > boardSize * boardSize ==> v == Invalid(DepthTooLarge(boardSize * boardSize))
  {
    var maxMoves := boardSize * boardSize;
    if depth == 0 then Invalid(DepthZero)
    else if depth > maxMoves then Invalid(DepthTooLarge(maxMoves))
    else Valid
  }

  /** `char::is_ascii_alphabetic`. */
  predicate IsAsciiAlphabetic(c: char)
  {
    'A' <= c <= 'Z' || 'a' <= c <= 'z'
  }

  /** `char::is_numeric`, restricted to the ASCII digits. */
  predicate IsNumeric(c: char)
  {
    '0' <= c <= '9'
  }

  /** `MoveSyntaxValidator::validate`: reads the first character, then the
      second, then checks that nothing follows. */
  function ValidateMoveSyntax(input: string): (v: Validation)
    ensures v == Valid <==> |input| == 2 && IsAsciiAlphabetic(input[0]) && IsNumeric(input[1])
    ensures v != Valid ==> v == Invalid(BadMoveSyntax)
  {
    if |input| == 0 || !IsAsciiAlphabetic(input[0]) then Invalid(BadMoveSyntax)
    else if |input| == 1 || !IsNumeric(input[1]) then Invalid(BadMoveSyntax)
    else if |input| > 2 then Invalid(BadMoveSyntax)
    else Valid
  }

  /** `to_uppercase` on one ASCII character; every other character is kept. */
  function ToUpper(c: char): (u: char)
    ensures 'a' <= c <= 'z' ==> 'A' <= u <= 'Z' && u as int == c as int - 32
    ensures !('a' <= c <= 'z') ==> u == c
  {
    if 'a' <= c <= 'z' then (c as int - 32) as char else c
  }

  /** `c as u8`: the low eight bits of the code point. */
  function ByteOf(c: char): (b: nat)
    ensures b < 256
  {
    (c as int) % 256
  }

  /** `u8` subtraction, wrapping below zero. */
  function WrappingSub(a: nat, b: nat): (d: nat)
    requires a < 256 && b < 256
    ensures d < 256
    ensures a >= b ==> d == a - b
    ensures a < b ==> d == a - b + 256
  {
    (a - b) % 256
  }

  /** `MovePlacementValidator::coord_from_str`: after upper-casing, the
      column is the first character's byte less `b'A'` and the row the
      second's less `b'1'`. The source's `expect` and `panic!` on a
      shorter string are its precondition. */
  function CoordFromStr(s: string): (c: Coord)
    requires |s| >= 2
    ensures c.row < 256 && c.col < 256
  {
    Coord(WrappingSub(ByteOf(ToUpper(s[1])), ByteOf('1')),
          WrappingSub(ByteOf(ToUpper(s[0])), ByteOf('A')))
  }

  /** The place of a letter in the alphabet, whatever its case. */
  function LetterIndex(c: char): (i: nat)
    requires IsAsciiAlphabetic(c)
    ensures i < 26
  {
    if 'a' <= c <= 'z' then c as int - 'a' as int else c as int - 'A' as int
  }

  /** For a letter and a digit from 1 to 9, the column is the letter's
      place in the alphabet in either case and the row is the digit less
      one; a `0` wraps the row to 255. */
  lemma CoordFromStrMeaning(s: string)
    requires |s| >= 2 && IsAsciiAlphabetic(s[0]) && IsNumeric(s[1])
    ensures CoordFromStr(s).col == LetterIndex(s[0])
    ensures s[1] != '0' ==> CoordFromStr(s).row == s[1] as int - '1' as int
    ensures s[1] == '0' ==> CoordFromStr(s).row == 255
  {
  }

  /** "a1" and "A1" both name the top-left cell, and "c3" is row 2, column 2. */
  lemma CoordFromStrExamples()
    ensures CoordFromStr("a1") == CoordFromStr("A1") == Coord(0, 0)
    ensures CoordFromStr("c3") == Coord(2, 2)
  {
    CoordFromStrMeaning("a1");
    CoordFromStrMeaning("A1");
    CoordFromStrMeaning("c3");
  }

  /** `MovePlacementValidator::validate`: place an X at the parsed
      coordinate on a copy of the board (so the stored board is never
      changed) and turn each error of `place` into a complaint naming the
      upper-cased characters; a successful place is Valid. */
  function ValidatePlacement(g: seq<Piece>, n: nat, input: string): (v: Validation)
    requires |g| == n * n && |input| >= 2
    ensures v == Valid <==> Grids.Placed(g, n, X, CoordFromStr(input)).Ok?
    ensures v.Invalid? ==>
      var e := Grids.Placed(g, n, X, CoordFromStr(input)).error;
      v.complaint == match e
        case RowIndexOutOfBounds(_, _) => RowOutOfBounds(ToUpper(input[1]))
        case ColIndexOutOfBounds(_, _) => ColOutOfBounds(ToUpper(input[0]))
        case SpaceOccupied(_) => Occupied(ToUpper(input[0]), ToUpper(input[1]))
  {
    var colChar := ToUpper(input[0]);
    var rowChar := ToUpper(input[1]);
    match Grids.Placed(g, n, X, CoordFromStr(input))
    case Err(RowIndexOutOfBounds(_, _)) => Invalid(RowOutOfBounds(rowChar))
    case Err(ColIndexOutOfBounds(_, _)) => Invalid(ColOutOfBounds(colChar))
    case Err(SpaceOccupied(_)) => Invalid(Occupied(colChar, rowChar))
    case Ok(_) => Valid
  }

  /** The coordinate `get_move` hands back (`coord_from_str`) is the one
      the placement validator checked: a move that passed both validators
      can be placed, for either player's piece. */
  lemma AcceptedMovePlaces(g: seq<Piece>, n: nat, input: string, p: Piece)
    requires |g| == n * n
    requires ValidateMoveSyntax(input) == Valid
    requires ValidatePlacement(g, n, input) == Valid
    ensures Grids.Placed(g, n, p, CoordFromStr(input)).Ok?
  {
  }

  /** The row a complaint names is out of range, and the cell an Occupied
      complaint names is on the board and taken. */
  lemma PlacementComplaints(g: seq<Piece>, n: nat, input: string)
    requires |g| == n * n && |input| >= 2
    ensures
      var c := CoordFromStr(input);
      var v := ValidatePlacement(g, n, input);
      && (v.Invalid? && v.complaint.RowOutOfBounds? <==> c.row >= n)
      && (v.Invalid? && v.complaint.Occupied? ==>
            Grids.Idx(n, c.row, c.col) < n * n && g[Grids.Idx(n, c.row, c.col)] != Empty)
  {
    Grids.PieceAtBounds(g, n, CoordFromStr(input));
  }

  /** As written, the placement check goes through `Board::piece_at`'s flat
      index, so a column one past the edge of a row that is not the last
      is accepted whenever the next row's first cell is Empty. */
  lemma PlacementAcceptsColumnPastEdge(g: seq<Piece>, n: nat, input: string, row: nat)
    requires |g| == n * n && |input| >= 2 && row + 1 < n
    requires CoordFromStr(input) == Coord(row, n) && Grids.Cell(g, n, row + 1, 0) == Empty
    ensures ValidatePlacement(g, n, input) == Valid
  {
    Grids.PieceAtAliases(g, n, row);
    Grids.PieceAtBounds(g, n, Coord(row + 1, 0));
  }

  /** On an empty 3 by 3 board "D1" passes both validators although column
      D does not exist. */
  lemma D1AcceptedOnThreeByThree()
    ensures
      var g := [Empty, Empty, Empty, Empty, Empty, Empty, Empty, Empty, Empty];
      && ValidateMoveSyntax("D1") == Valid
      && CoordFromStr("D1") == Coord(0, 3)
      && ValidatePlacement(g, 3, "D1") == Valid
  {
    var g := [Empty, Empty, Empty, Empty, Empty, Empty, Empty, Empty, Empty];
    CoordFromStrMeaning("D1");
    assert Grids.Cell(g, 3, 1, 0) == g[3] == Empty;
    PlacementAcceptsColumnPastEdge(g, 3, "D1", 0);
  }

  /** The placement check with the bounds checked on the coordinate itself,
      row first, as `ScrambledBoard::space_at` does, before the cell is
      read. */
  function ValidatePlacementInBounds(g: seq<Piece>, n: nat, input: string): (v: Validation)
    requires |g| == n * n && |input| >= 2
    ensures
      var c := CoordFromStr(input);
      v == Valid <==> c.row < n && c.col < n && Grids.Cell(g, n, c.row, c.col) == Empty
  {
    var c := CoordFromStr(input);
    var colChar := ToUpper(input[0]);
    var rowChar := ToUpper(input[1]);
    if c.row >= n then Invalid(RowOutOfBounds(rowChar))
    else if c.col >= n then Invalid(ColOutOfBounds(colChar))
    else if Grids.Cell(g, n, c.row, c.col) != Empty then Invalid(Occupied(colChar, rowChar))
    else Valid
  }

  /** The bounded check agrees with the one as written on every coordinate
      inside the board, and refuses "D1" on the empty 3 by 3 board. */
  lemma InBoundsAgreesInside(g: seq<Piece>, n: nat, input: string)
    requires |g| == n * n && |input| >= 2
    requires CoordFromStr(input).col < n
    ensures ValidatePlacementInBounds(g, n, input) == ValidatePlacement(g, n, input)
  {
    var c := CoordFromStr(input);
    Grids.PieceAtBounds(g, n, c);
    if c.row < n {
      Grids.IdxBounds(n, c.row, c.col);
    }
  }

  lemma InBoundsRefusesColumnPastEdge()
    ensures
      var g := [Empty, Empty, Empty, Empty, Empty, Empty, Empty, Empty, Empty];
      ValidatePlacementInBounds(g, 3, "D1") == Invalid(ColOutOfBounds('D'))
  {
    CoordFromStrMeaning("D1");
  }
}
