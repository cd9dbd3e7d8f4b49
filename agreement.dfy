/** How the web client's move hints and winner check (frontend/src/App.tsx) relate to
    what the server (lambda/game.py) accepts and decides. */
module Agreement {
  import opened Checkerboard
  import opened Rules
  import Client

  /** The client's row directions are exactly the ones the server lets the piece head in. */
  lemma DirectionsAgree(piece: Cell, dr: int)
    requires piece.Piece?
    ensures dr in Client.Directions(piece) <==> MayHead(piece.color, piece.king, dr)
  {
  }

  /** A jump the client offers is a capture the server accepts. */
  lemma OfferedJumpIsValid(b: Board, row: int, col: int, dr: int, dc: int, m: Client.Move)
    requires InBounds(row, col) && At(b, row, col).Piece?
    requires dr in Client.Directions(At(b, row, col)) && Client.JumpVia(b, row, col, dr, dc, m)
    ensures IsValidMove(b, row, col, m.row, m.col, At(b, row, col).color)
  {
    var piece := At(b, row, col);
    DirectionsAgree(piece, dr);
    assert JumpOpen(b, row, col, piece.color, dr, dc);
    assert MoveAlong(b, row, col, m.row, m.col, piece.color, dr, dc);
    OpenMoveIsValid(b, row, col, m.row, m.col, piece.color, dr, dc);
  }

  /** A one-step move the client offers is a move the server accepts. */
  lemma OfferedStepIsValid(b: Board, row: int, col: int, dr: int, dc: int, m: Client.Move)
    requires InBounds(row, col) && At(b, row, col).Piece?
    requires dr in Client.Directions(At(b, row, col)) && Client.StepVia(b, row, col, dr, dc, m)
    ensures IsValidMove(b, row, col, m.row, m.col, At(b, row, col).color)
  {
    var piece := At(b, row, col);
    DirectionsAgree(piece, dr);
    assert MoveAlong(b, row, col, m.row, m.col, piece.color, dr, dc);
    OpenMoveIsValid(b, row, col, m.row, m.col, piece.color, dr, dc);
  }

  /** Every square calculateValidMoves highlights is a move is_valid_move accepts for the
      side owning the selected piece. */
  lemma OfferedMovesAreValid(b: Board, row: int, col: int, m: Client.Move)
    requires InBounds(row, col) && At(b, row, col).Piece?
    requires m in Client.ValidMoves(Some(b), row, col)
    ensures IsValidMove(b, row, col, m.row, m.col, At(b, row, col).color)
  {
    var dirs := Client.Directions(At(b, row, col));
    if Client.JumpsAlong(b, row, col, dirs) != [] {
      assert m in Client.JumpsAlong(b, row, col, dirs);
      Client.JumpsAlongExactly(b, row, col, dirs, m);
      var dr, dc :| dr in dirs && Client.JumpVia(b, row, col, dr, dc, m);
      OfferedJumpIsValid(b, row, col, dr, dc, m);
    } else {
      assert m in Client.StepsAlong(b, row, col, dirs);
      Client.StepsAlongExactly(b, row, col, dirs, m);
      var dr, dc :| dr in dirs && Client.StepVia(b, row, col, dr, dc, m);
      OfferedStepIsValid(b, row, col, dr, dc, m);
    }
  }

  /** An open one-step move of a piece on an even square is among the client's steps. */
  lemma StepOffered(b: Board, row: int, col: int, dr: int, dc: int)
    requires InBounds(row, col) && At(b, row, col).Piece? && (row + col) % 2 == 0
    requires Diagonal(dr, dc) && MayHead(At(b, row, col).color, At(b, row, col).king, dr)
    requires StepOpen(b, row, col, dr, dc)
    ensures Client.Move(row + dr, col + dc) in Client.StepsAlong(b, row, col, Client.Directions(At(b, row, col)))
  {
    var dirs := Client.Directions(At(b, row, col));
    DirectionsAgree(At(b, row, col), dr);
    assert (row + dr + col + dc) % 2 == 0 by {
      var k := if dr == dc then dr else 0;
      assert row + dr + col + dc == row + col + 2 * k;
    }
    assert Client.StepVia(b, row, col, dr, dc, Client.Move(row + dr, col + dc));
    Client.StepsAlongExactly(b, row, col, dirs, Client.Move(row + dr, col + dc));
  }

  /** An open capture of a piece on an even square is among the client's jumps. */
  lemma JumpOffered(b: Board, row: int, col: int, dr: int, dc: int)
    requires InBounds(row, col) && At(b, row, col).Piece? && (row + col) % 2 == 0
    requires Diagonal(dr, dc) && MayHead(At(b, row, col).color, At(b, row, col).king, dr)
    requires JumpOpen(b, row, col, At(b, row, col).color, dr, dc)
    ensures Client.Move(row + dr * 2, col + dc * 2) in Client.JumpsAlong(b, row, col, Client.Directions(At(b, row, col)))
  {
    var dirs := Client.Directions(At(b, row, col));
    DirectionsAgree(At(b, row, col), dr);
    var m := Client.Move(row + dr * 2, col + dc * 2);
    assert m.row == row + 2 * dr && m.col == col + 2 * dc;
    assert (m.row + m.col) % 2 == 0 by {
      assert m.row + m.col == row + col + 2 * (dr + dc);
    }
    assert At(b, m.row, m.col) == Empty;
    assert Client.IsOpponentPiece(At(b, row, col), At(b, row + dr, col + dc));
    assert Client.JumpOk(b, row, col, dr, dc);
    assert Client.JumpVia(b, row, col, dr, dc, m);
    Client.JumpsAlongExactly(b, row, col, dirs, m);
  }

  /** A server move along one diagonal is offered by the client as a jump or a step. */
  lemma OfferableAlong(b: Board, row: int, col: int, tr: int, tc: int, dr: int, dc: int)
    requires InBounds(row, col) && At(b, row, col).Piece? && (row + col) % 2 == 0 && Diagonal(dr, dc)
    requires MoveAlong(b, row, col, tr, tc, At(b, row, col).color, dr, dc)
    ensures var dirs := Client.Directions(At(b, row, col));
            || Client.Move(tr, tc) in Client.JumpsAlong(b, row, col, dirs)
            || Client.Move(tr, tc) in Client.StepsAlong(b, row, col, dirs)
  {
    if tr == row + dr && tc == col + dc && StepOpen(b, row, col, dr, dc) {
      StepOffered(b, row, col, dr, dc);
      assert Client.Move(tr, tc) == Client.Move(row + dr, col + dc);
    } else {
      JumpOffered(b, row, col, dr, dc);
      assert Client.Move(tr, tc) == Client.Move(row + dr * 2, col + dc * 2);
    }
  }

  /** On a board whose pieces stand on even squares, a move the server accepts for the
      owner of (row, col) is one the client would offer as a jump or as a step. */
  lemma ValidMoveIsOfferable(b: Board, row: int, col: int, tr: int, tc: int)
    requires OnEvenSquares(b)
    requires InBounds(row, col) && At(b, row, col).Piece?
    requires IsValidMove(b, row, col, tr, tc, At(b, row, col).color)
    ensures var dirs := Client.Directions(At(b, row, col));
            || Client.Move(tr, tc) in Client.JumpsAlong(b, row, col, dirs)
            || Client.Move(tr, tc) in Client.StepsAlong(b, row, col, dirs)
  {
    var p := At(b, row, col).color;
    assert (row + col) % 2 == 0;
    ValidMoveIsOpen(b, row, col, tr, tc, p);
    if MoveAlong(b, row, col, tr, tc, p, -1, -1) {
      OfferableAlong(b, row, col, tr, tc, -1, -1);
    } else if MoveAlong(b, row, col, tr, tc, p, -1, 1) {
      OfferableAlong(b, row, col, tr, tc, -1, 1);
    } else if MoveAlong(b, row, col, tr, tc, p, 1, -1) {
      OfferableAlong(b, row, col, tr, tc, 1, -1);
    } else {
      OfferableAlong(b, row, col, tr, tc, 1, 1);
    }
  }

  /** On a board whose pieces stand on even squares, the client highlights exactly the
      moves the server accepts for the selected piece, except that when the piece has a
      capture the client shows only its captures. */
  lemma OfferedExactlyValid(b: Board, row: int, col: int, m: Client.Move)
    requires OnEvenSquares(b)
    requires InBounds(row, col) && At(b, row, col).Piece?
    ensures m in Client.ValidMoves(Some(b), row, col) <==>
              && IsValidMove(b, row, col, m.row, m.col, At(b, row, col).color)
              && (Client.JumpsAlong(b, row, col, Client.Directions(At(b, row, col))) != [] ==> Abs(m.row - row) == 2)
  {
    var piece := At(b, row, col);
    var dirs := Client.Directions(piece);
    var jumps := Client.JumpsAlong(b, row, col, dirs);
    if m in Client.ValidMoves(Some(b), row, col) {
      OfferedMovesAreValid(b, row, col, m);
      if jumps != [] {
        Client.JumpsTakePriority(b, row, col);
      }
    }
    if IsValidMove(b, row, col, m.row, m.col, piece.color) && (jumps != [] ==> Abs(m.row - row) == 2) {
      ValidMoveIsOfferable(b, row, col, m.row, m.col);
      assert m == Client.Move(m.row, m.col);
      if jumps != [] && m !in jumps {
        Client.StepsAlongExactly(b, row, col, dirs, m);
      }
    }
  }

  /** A winner the client shows is one the server's check_winner also declares. */
  lemma ClientWinnerAgrees(b: Board, w: Color)
    requires Client.CheckWinner(Some(b)) == Some(w)
    ensures CheckWinner(b, w) == Some(w)
  {
    var loser := Opponent(w);
    assert forall r, c :: InBounds(r, c) ==> !Owns(At(b, r, c), loser);
    assert Opponent(w) == loser;
  }
}
