/** The server's rules engine (lambda/game.py): move validation, capture
    detection, the board effect of a move, and end-of-game detection. */
module Rules {
  import opened Checkerboard

  function Abs(x: int): nat
  {
    if x < 0 then -x else x
  }

  /** Whether a piece of side p (a king when `king`) may head in row direction dr:
      -1 (up) for red or a king, +1 (down) for black or a king. */
  predicate MayHead(p: Color, king: bool, dr: int)
  {
    (dr == -1 && (p == Red || king)) || (dr == 1 && (p == Black || king))
  }

  /** The `directions` list of has_valid_jumps and has_any_moves. */
  function RowDirections(p: Color, king: bool): (dirs: seq<int>)
    ensures forall dr :: dr in dirs <==> MayHead(p, king, dr)
    ensures |dirs| == if king then 2 else 1
  {
    (if p == Red || king then [-1] else []) + (if p == Black || king then [1] else [])
  }

  predicate Diagonal(dr: int, dc: int)
  {
    (dr == -1 || dr == 1) && (dc == -1 || dc == 1)
  }

  /** From (r, c), side p can capture along (dr, dc): the landing square two steps
      away is on the board and empty, and the square between holds an opponent piece. */
  predicate JumpOpen(b: Board, r: int, c: int, p: Color, dr: int, dc: int)
    requires InBounds(r, c) && Diagonal(dr, dc)
  {
    && InBounds(r + 2 * dr, c + 2 * dc)
    && Owns(At(b, r + dr, c + dc), Opponent(p))
    && At(b, r + 2 * dr, c + 2 * dc) == Empty
  }

  /** From (r, c) the square one step along (dr, dc) is on the board and empty. */
  predicate StepOpen(b: Board, r: int, c: int, dr: int, dc: int)
    requires Diagonal(dr, dc)
  {
    InBounds(r + dr, c + dc) && At(b, r + dr, c + dc) == Empty
  }

  /** `has_valid_jumps(board, r, c, p)`: the piece on (r, c), moving for p, has a capture. */
  predicate JumpAvailable(b: Board, r: int, c: int, p: Color)
    requires InBounds(r, c)
  {
    && At(b, r, c).Piece?
    && var king := At(b, r, c).king;
    || (MayHead(p, king, -1) && (JumpOpen(b, r, c, p, -1, -1) || JumpOpen(b, r, c, p, -1, 1)))
    || (MayHead(p, king, 1) && (JumpOpen(b, r, c, p, 1, -1) || JumpOpen(b, r, c, p, 1, 1)))
  }

  /** The piece on (r, c), moving for p, has a one-step move. */
  predicate StepAvailable(b: Board, r: int, c: int, p: Color)
    requires InBounds(r, c)
  {
    && At(b, r, c).Piece?
    && var king := At(b, r, c).king;
    || (MayHead(p, king, -1) && (StepOpen(b, r, c, -1, -1) || StepOpen(b, r, c, -1, 1)))
    || (MayHead(p, king, 1) && (StepOpen(b, r, c, 1, -1) || StepOpen(b, r, c, 1, 1)))
  }

  /** The test has_any_moves applies to one square. */
  predicate CanMove(b: Board, r: int, c: int, p: Color)
    requires InBounds(r, c)
  {
    Owns(At(b, r, c), p) && (JumpAvailable(b, r, c, p) || StepAvailable(b, r, c, p))
  }

  /** `has_any_moves(board, p)`. */
  predicate AnyMoveAvailable(b: Board, p: Color)
  {
    exists r, c :: 0 <= r < 8 && 0 <= c < 8 && CanMove(b, r, c, p)
  }

  /** `is_valid_move(board, (fr, fc), (tr, tc), p)`. */
  function IsValidMove(b: Board, fr: int, fc: int, tr: int, tc: int, p: Color): (ok: bool)
    ensures ok ==> InBounds(fr, fc) && InBounds(tr, tc)
    ensures ok ==> Owns(At(b, fr, fc), p) && At(b, tr, tc) == Empty
    ensures ok ==> Abs(tr - fr) == Abs(tc - fc) && (Abs(tc - fc) == 1 || Abs(tc - fc) == 2)
  {
    if !(InBounds(fr, fc) && InBounds(tr, tc)) then false
    else
      var piece := At(b, fr, fc);
      if piece.Empty? then false
      else if p == Red && piece.color != Red then false
      else if p == Black && piece.color != Black then false
      else if At(b, tr, tc) != Empty then false
      else
        var isKing := piece.king;
        var rowDiff := tr - fr;
        var colDiff := Abs(tc - fc);
        if colDiff == 1 then
          || (p == Red && rowDiff == -1)
          || (p == Black && rowDiff == 1)
          || (isKing && Abs(rowDiff) == 1)
        else if colDiff == 2 && Abs(rowDiff) == 2 then
          var jumped := At(b, (fr + tr) / 2, (fc + tc) / 2);
          if jumped.Empty? then false
          else if p == Red && jumped.color != Black then false
          else if p == Black && jumped.color != Red then false
          else if !isKing && p == Red && rowDiff != -2 then false
          else if !isKing && p == Black && rowDiff != 2 then false
          else true
        else false
  }

  /** Some move of side p passes is_valid_move. */
  ghost predicate HasLegalMove(b: Board, p: Color)
  {
    exists fr, fc, tr, tc :: IsValidMove(b, fr, fc, tr, tc, p)
  }

  /** The piece on (fr, fc) may head along (dr, dc), and (tr, tc) is the open square
      one step that way or the open landing square of a capture that way. */
  predicate MoveAlong(b: Board, fr: int, fc: int, tr: int, tc: int, p: Color, dr: int, dc: int)
    requires InBounds(fr, fc) && Diagonal(dr, dc)
  {
    && At(b, fr, fc).Piece?
    && MayHead(p, At(b, fr, fc).king, dr)
    && ((tr == fr + dr && tc == fc + dc && StepOpen(b, fr, fc, dr, dc)) ||
        (tr == fr + 2 * dr && tc == fc + 2 * dc && JumpOpen(b, fr, fc, p, dr, dc)))
  }

  /** A move of a piece of side p that has_any_moves or has_valid_jumps would find. */
  predicate OpenMove(b: Board, fr: int, fc: int, tr: int, tc: int, p: Color)
  {
    && InBounds(fr, fc)
    && Owns(At(b, fr, fc), p)
    && (|| MoveAlong(b, fr, fc, tr, tc, p, -1, -1)
        || MoveAlong(b, fr, fc, tr, tc, p, -1, 1)
        || MoveAlong(b, fr, fc, tr, tc, p, 1, -1)
        || MoveAlong(b, fr, fc, tr, tc, p, 1, 1))
  }

  lemma ValidMoveIsOpen(b: Board, fr: int, fc: int, tr: int, tc: int, p: Color)
    requires IsValidMove(b, fr, fc, tr, tc, p)
    ensures OpenMove(b, fr, fc, tr, tc, p)
  {
    var dr := if tr > fr then 1 else -1;
    var dc := if tc > fc then 1 else -1;
    if Abs(tc - fc) == 1 {
      assert tr == fr + dr && tc == fc + dc;
      assert MoveAlong(b, fr, fc, tr, tc, p, dr, dc);
    } else {
      assert tr == fr + 2 * dr && tc == fc + 2 * dc;
      Halfway(fr, dr);
      Halfway(fc, dc);
      assert MoveAlong(b, fr, fc, tr, tc, p, dr, dc);
    }
  }

  /** A move accepted by is_valid_move keeps the parity of row + column. */
  lemma ValidMoveKeepsParity(b: Board, fr: int, fc: int, tr: int, tc: int, p: Color)
    requires IsValidMove(b, fr, fc, tr, tc, p)
    ensures (tr + tc) % 2 == (fr + fc) % 2
  {
    DiagonalKeepsParity(fr, fc, tr, tc);
  }

  lemma DiagonalKeepsParity(fr: int, fc: int, tr: int, tc: int)
    requires Abs(tr - fr) == Abs(tc - fc)
    ensures (tr + tc) % 2 == (fr + fc) % 2
  {
    var k := if tr - fr == tc - fc then tr - fr else 0;
    assert tr + tc == fr + fc + 2 * k;
  }

  /** The square between x and x + 2d. */
  lemma Halfway(x: int, d: int)
    requires d == -1 || d == 1
    ensures (x + (x + 2 * d)) / 2 == x + d
  {
  }

  lemma OpenMoveIsValid(b: Board, fr: int, fc: int, tr: int, tc: int, p: Color, dr: int, dc: int)
    requires InBounds(fr, fc) && Owns(At(b, fr, fc), p)
    requires Diagonal(dr, dc) && MoveAlong(b, fr, fc, tr, tc, p, dr, dc)
    ensures IsValidMove(b, fr, fc, tr, tc, p)
  {
    if tr == fr + 2 * dr {
      assert (fr + tr) / 2 == fr + dr && (fc + tc) / 2 == fc + dc;
    }
  }

  /** is_valid_move accepts exactly the one-step moves and captures that
      has_any_moves and has_valid_jumps look for. */
  lemma ValidMoveIffOpenMove(b: Board, fr: int, fc: int, tr: int, tc: int, p: Color)
    ensures IsValidMove(b, fr, fc, tr, tc, p) <==> OpenMove(b, fr, fc, tr, tc, p)
  {
    if IsValidMove(b, fr, fc, tr, tc, p) {
      ValidMoveIsOpen(b, fr, fc, tr, tc, p);
    }
    if OpenMove(b, fr, fc, tr, tc, p) {
      if MoveAlong(b, fr, fc, tr, tc, p, -1, -1) {
        OpenMoveIsValid(b, fr, fc, tr, tc, p, -1, -1);
      } else if MoveAlong(b, fr, fc, tr, tc, p, -1, 1) {
        OpenMoveIsValid(b, fr, fc, tr, tc, p, -1, 1);
      } else if MoveAlong(b, fr, fc, tr, tc, p, 1, -1) {
        OpenMoveIsValid(b, fr, fc, tr, tc, p, 1, -1);
      } else {
        OpenMoveIsValid(b, fr, fc, tr, tc, p, 1, 1);
      }
    }
  }

  /** A square that passes has_any_moves' test has a move is_valid_move accepts. */
  lemma CanMoveHasValidMove(b: Board, r: int, c: int, p: Color)
    requires InBounds(r, c) && CanMove(b, r, c, p)
    ensures exists tr, tc :: IsValidMove(b, r, c, tr, tc, p)
  {
    var king := At(b, r, c).king;
    var dr, dc, n;
    if MayHead(p, king, -1) && JumpOpen(b, r, c, p, -1, -1) { dr, dc, n := -1, -1, 2; }
    else if MayHead(p, king, -1) && JumpOpen(b, r, c, p, -1, 1) { dr, dc, n := -1, 1, 2; }
    else if MayHead(p, king, 1) && JumpOpen(b, r, c, p, 1, -1) { dr, dc, n := 1, -1, 2; }
    else if MayHead(p, king, 1) && JumpOpen(b, r, c, p, 1, 1) { dr, dc, n := 1, 1, 2; }
    else if MayHead(p, king, -1) && StepOpen(b, r, c, -1, -1) { dr, dc, n := -1, -1, 1; }
    else if MayHead(p, king, -1) && StepOpen(b, r, c, -1, 1) { dr, dc, n := -1, 1, 1; }
    else if MayHead(p, king, 1) && StepOpen(b, r, c, 1, -1) { dr, dc, n := 1, -1, 1; }
    else { dr, dc, n := 1, 1, 1; }
    OpenMoveIsValid(b, r, c, r + n * dr, c + n * dc, p, dr, dc);
  }

  /** has_any_moves answers whether is_valid_move accepts some move of side p. */
  lemma AnyMoveIffLegalMove(b: Board, p: Color)
    ensures AnyMoveAvailable(b, p) <==> HasLegalMove(b, p)
  {
    if AnyMoveAvailable(b, p) {
      var r, c :| 0 <= r < 8 && 0 <= c < 8 && CanMove(b, r, c, p);
      CanMoveHasValidMove(b, r, c, p);
    }
    if HasLegalMove(b, p) {
      var fr, fc, tr, tc :| IsValidMove(b, fr, fc, tr, tc, p);
      ValidMoveIsOpen(b, fr, fc, tr, tc, p);
      assert CanMove(b, fr, fc, p);
    }
  }

  /** A side with no pieces has no moves. */
  lemma NoPiecesNoMoves(b: Board, p: Color)
    requires PieceCount(b, p) == 0
    ensures !AnyMoveAvailable(b, p)
  {
    CountZero(b, p);
    forall r, c | 0 <= r < 8 && 0 <= c < 8 ensures !CanMove(b, r, c, p) {
      assert !Owns(b[Idx(r, c)], p);
    }
  }

  /** `check_winner(board, p)`: p wins when its opponent has no pieces or no moves. */
  function CheckWinner(b: Board, p: Color): (w: Option<Color>)
    ensures w == None || w == Some(p)
    ensures w == Some(p) <==> !HasLegalMove(b, Opponent(p))
  {
    AnyMoveIffLegalMove(b, Opponent(p));
    if PieceCount(b, Opponent(p)) == 0 then
      NoPiecesNoMoves(b, Opponent(p));
      Some(p)
    else if !AnyMoveAvailable(b, Opponent(p)) then Some(p)
    else None
  }

  /** The promotion test of update_game: red reaching row 0, black reaching row 7. */
  predicate ReachesFarRow(p: Color, tr: int)
  {
    (p == Red && tr == 0) || (p == Black && tr == 7)
  }

  /** The board after update_game has moved an accepted piece: the start square
      emptied, the piece placed on the destination, the jumped piece removed, and
      the piece upper-cased on the far row. */
  function MoveBoard(b: Board, fr: int, fc: int, tr: int, tc: int, p: Color): (b': Board)
    requires IsValidMove(b, fr, fc, tr, tc, p)
    ensures At(b', fr, fc) == Empty
    ensures At(b', tr, tc).Piece? && At(b', tr, tc).color == p
    ensures At(b', tr, tc).king == (At(b, fr, fc).king || ReachesFarRow(p, tr))
    ensures Abs(tr - fr) == 2 ==> At(b', (fr + tr) / 2, (fc + tc) / 2) == Empty
    ensures forall r, c ::
              (InBounds(r, c) && !(r == fr && c == fc) && !(r == tr && c == tc) && !IsJumped(fr, fc, tr, tc, r, c))
              ==> At(b', r, c) == At(b, r, c)
  {
    var piece := At(b, fr, fc);
    var moved := Put(Put(b, fr, fc, Empty), tr, tc, piece);
    var captured := if Abs(tr - fr) == 2 then Put(moved, (fr + tr) / 2, (fc + tc) / 2, Empty) else moved;
    if ReachesFarRow(p, tr) then Put(captured, tr, tc, Upper(At(captured, tr, tc))) else captured
  }

  /** The square a capture from (fr, fc) to (tr, tc) jumps over. */
  predicate IsJumped(fr: int, fc: int, tr: int, tc: int, r: int, c: int)
  {
    Abs(tr - fr) == 2 && r == (fr + tr) / 2 && c == (fc + tc) / 2
  }

  /** The mover keeps all its pieces; a capture removes exactly one opponent piece. */
  lemma MoveCounts(b: Board, fr: int, fc: int, tr: int, tc: int, p: Color)
    requires IsValidMove(b, fr, fc, tr, tc, p)
    ensures PieceCount(MoveBoard(b, fr, fc, tr, tc, p), p) == PieceCount(b, p)
    ensures PieceCount(MoveBoard(b, fr, fc, tr, tc, p), Opponent(p))
         == PieceCount(b, Opponent(p)) - (if Abs(tr - fr) == 2 then 1 else 0)
  {
    var q := Opponent(p);
    var piece := At(b, fr, fc);
    var b1 := Put(b, fr, fc, Empty);
    var moved := Put(b1, tr, tc, piece);
    CountUpdate(b, Idx(fr, fc), Empty, p);
    CountUpdate(b, Idx(fr, fc), Empty, q);
    CountUpdate(b1, Idx(tr, tc), piece, p);
    CountUpdate(b1, Idx(tr, tc), piece, q);
    var captured := moved;
    if Abs(tr - fr) == 2 {
      captured := Put(moved, (fr + tr) / 2, (fc + tc) / 2, Empty);
      CountUpdate(moved, Idx((fr + tr) / 2, (fc + tc) / 2), Empty, p);
      CountUpdate(moved, Idx((fr + tr) / 2, (fc + tc) / 2), Empty, q);
    }
    if ReachesFarRow(p, tr) {
      CountUpdate(captured, Idx(tr, tc), Upper(At(captured, tr, tc)), p);
      CountUpdate(captured, Idx(tr, tc), Upper(At(captured, tr, tc)), q);
    }
  }

  /** Pieces stay on the even squares of the initial layout. */
  lemma MoveKeepsEvenSquares(b: Board, fr: int, fc: int, tr: int, tc: int, p: Color)
    requires OnEvenSquares(b)
    requires IsValidMove(b, fr, fc, tr, tc, p)
    ensures OnEvenSquares(MoveBoard(b, fr, fc, tr, tc, p))
  {
    ValidMoveKeepsParity(b, fr, fc, tr, tc, p);
  }

  /** `check_winner` as the source runs it: count the opponent's pieces, then scan
      for an opponent move. */
  method Winner(board: array<Cell>, p: Color) returns (w: Option<Color>)
    requires board.Length == 64
    ensures w == CheckWinner(board[..], p)
  {
    var opponent := if p == Red then Black else Red;
    var opponentPieces := CountPieces(board, opponent);
    if opponentPieces == 0 {
      return Some(p);
    }
    var moves := HasAnyMoves(board, opponent);
    if !moves {
      return Some(p);
    }
    return None;
  }

  /** `has_valid_jumps` as the source runs it: nested loops with an early return. */
  method HasValidJumps(board: array<Cell>, row: int, col: int, p: Color) returns (found: bool)
    requires board.Length == 64 && InBounds(row, col)
    ensures found == JumpAvailable(board[..], row, col, p)
  {
    var piece := board[Idx(row, col)];
    if piece.Empty? {
      return false;
    }
    ghost var b := board[..];
    var isKing := piece.king;
    var directions := RowDirections(p, isKing);
    var colDirs := [-1, 1];
    for i := 0 to |directions|
      invariant forall k, j :: 0 <= k < i && 0 <= j < 2 ==> !JumpOpen(b, row, col, p, directions[k], colDirs[j])
    {
      for j := 0 to 2
        invariant forall k, j' :: (0 <= k < i && 0 <= j' < 2) || (k == i && 0 <= j' < j)
                    ==> !JumpOpen(b, row, col, p, directions[k], colDirs[j'])
      {
        var open := JumpOpenAt(board, row, col, p, directions[i], colDirs[j]);
        if open {
          return true;
        }
      }
    }
    assert forall dr, dc :: Diagonal(dr, dc) && MayHead(p, isKing, dr) ==> !JumpOpen(b, row, col, p, dr, dc) by {
      forall dr, dc | Diagonal(dr, dc) && MayHead(p, isKing, dr) ensures !JumpOpen(b, row, col, p, dr, dc) {
        var k :| 0 <= k < |directions| && directions[k] == dr;
        assert colDirs[if dc == -1 then 0 else 1] == dc;
      }
    }
    return false;
  }

  /** The body of has_valid_jumps' inner loop: the bounds, jumped-piece and landing tests. */
  method JumpOpenAt(board: array<Cell>, row: int, col: int, p: Color, rowDir: int, colDir: int) returns (open: bool)
    requires board.Length == 64 && InBounds(row, col) && Diagonal(rowDir, colDir)
    ensures open == JumpOpen(board[..], row, col, p, rowDir, colDir)
  {
    var jumpedRow, jumpedCol := row + rowDir, col + colDir;
    var targetRow, targetCol := row + rowDir * 2, col + colDir * 2;
    if !(0 <= targetRow < 8 && 0 <= targetCol < 8) {
      return false;
    }
    var jumped := board[Idx(jumpedRow, jumpedCol)];
    if jumped.Empty? {
      return false;
    }
    if p == Red && jumped.color != Black {
      return false;
    }
    if p == Black && jumped.color != Red {
      return false;
    }
    return board[Idx(targetRow, targetCol)].Empty?;
  }

  /** `has_any_moves` as the source runs it: a scan of all squares that returns at
      the first piece of p with a capture or an open one-step move. */
  method HasAnyMoves(board: array<Cell>, p: Color) returns (found: bool)
    requires board.Length == 64
    ensures found == AnyMoveAvailable(board[..], p)
  {
    for row := 0 to 8
      invariant forall r, c :: 0 <= r < row && 0 <= c < 8 ==> !CanMove(board[..], r, c, p)
    {
      for col := 0 to 8
        invariant forall r, c :: ((0 <= r < row && 0 <= c < 8) || (r == row && 0 <= c < col))
                    ==> !CanMove(board[..], r, c, p)
      {
        var piece := board[Idx(row, col)];
        if piece.Empty? {
          continue;
        }
        if (p == Red && piece.color != Red) || (p == Black && piece.color != Black) {
          continue;
        }
        var jumps := HasValidJumps(board, row, col, p);
        if jumps {
          assert CanMove(board[..], row, col, p);
          return true;
        }
        var step := HasStepFrom(board, row, col, p);
        if step {
          assert CanMove(board[..], row, col, p);
          return true;
        }
      }
    }
    return false;
  }

  /** The one-step part of has_any_moves' scan for the piece on (row, col). */
  method HasStepFrom(board: array<Cell>, row: int, col: int, p: Color) returns (found: bool)
    requires board.Length == 64 && InBounds(row, col) && board[Idx(row, col)].Piece?
    ensures found == StepAvailable(board[..], row, col, p)
  {
    ghost var b := board[..];
    var isKing := board[Idx(row, col)].king;
    var directions := RowDirections(p, isKing);
    var colDirs := [-1, 1];
    for i := 0 to |directions|
      invariant forall k, j :: 0 <= k < i && 0 <= j < 2 ==> !StepOpen(b, row, col, directions[k], colDirs[j])
    {
      for j := 0 to 2
        invariant forall k, j' :: (0 <= k < i && 0 <= j' < 2) || (k == i && 0 <= j' < j)
                    ==> !StepOpen(b, row, col, directions[k], colDirs[j'])
      {
        var targetRow, targetCol := row + directions[i], col + colDirs[j];
        if !(0 <= targetRow < 8 && 0 <= targetCol < 8) {
          continue;
        }
        if board[Idx(targetRow, targetCol)].Empty? {
          assert StepOpen(b, row, col, directions[i], colDirs[j]);
          return true;
        }
      }
    }
    assert forall dr, dc :: Diagonal(dr, dc) && MayHead(p, isKing, dr) ==> !StepOpen(b, row, col, dr, dc) by {
      forall dr, dc | Diagonal(dr, dc) && MayHead(p, isKing, dr) ensures !StepOpen(b, row, col, dr, dc) {
        var k :| 0 <= k < |directions| && directions[k] == dr;
        assert colDirs[if dc == -1 then 0 else 1] == dc;
      }
    }
    return false;
  }

  /** `count_pieces` as the source runs it: a counter over every square. */
  method CountPieces(board: array<Cell>, p: Color) returns (count: nat)
    requires board.Length == 64
    ensures count == PieceCount(board[..], p)
  {
    count := 0;
    for row := 0 to 8
      invariant count == CountIn(board[..8 * row], p)
    {
      for col := 0 to 8
        invariant count == CountIn(board[..8 * row + col], p)
      {
        CountPrefix(board[..], 8 * row + col, p);
        assert board[..][..8 * row + col + 1] == board[..8 * row + col + 1];
        var piece := board[Idx(row, col)];
        if piece.Empty? {
          continue;
        }
        if (p == Red && piece.color == Red) || (p == Black && piece.color == Black) {
          count := count + 1;
        }
      }
    }
    assert board[..64] == board[..];
  }
}
